/** The call graph, and the pass that rewrites its call edges. */
module Enrichment {
  import opened Common
  import opened CallGraph
  import opened ReverseIndex

  const MAX_SITES: nat := 2000

  datatype FunctionInfo = FunctionInfo(file: string, startLine: nat, endLine: nat, isToplevel: bool)

  /** Where the server says a definition is. */
  datatype Answer = Answer(file: string, line: nat)

  datatype Outcome = Outcome(confirmed: nat, corrected: nat, externalized: nat, unresolved: nat)

  const NO_OUTCOME: Outcome := Outcome(0, 0, 0, 0)

  datatype Stats = Stats(
    resolvedInternal: nat,
    resolvedExternal: nat,
    unresolved: nat,
    externalPackages: nat,
    confirmedCalls: nat,
    correctedCalls: nat,
    enriched: bool)

  /** A language server, as far as a pass sees it: which callers it handles, what the answer cache
      holds for a site (the inner `None` remembers that there was no answer), what it answers for
      the remaining sites (`None` when it fails), and which of its answers came past the deadline. */
  datatype Provider = Provider(
    handles: nat -> bool,
    cached: nat -> Option<Option<Answer>>,
    resolve: seq<nat> -> Option<seq<Option<Answer>>>,
    late: nat -> bool)

  function CalleeOf(c: CallSite): Option<nat> {
    if c.resolution.Internal? then Some(c.resolution.callee) else None
  }

  function PackageOf(c: CallSite): Option<string> {
    if c.resolution.External? then Some(c.resolution.package) else None
  }

  ghost function Callees(calls: seq<CallSite>): seq<Option<nat>> {
    seq(|calls|, i requires 0 <= i < |calls| => CalleeOf(calls[i]))
  }

  ghost function Packages(calls: seq<CallSite>): seq<Option<string>> {
    seq(|calls|, i requires 0 <= i < |calls| => PackageOf(calls[i]))
  }

  /** Nothing more to ask a server about. */
  predicate Settled(c: CallSite) {
    c.resolution.External?
    || (c.resolution.Internal? && c.resolution.confidence == High && c.resolution.ambiguousWith == [])
  }

  /** Worth asking about: resolved internally, but not settled, with a known name position. */
  predicate Candidate(c: CallSite) {
    c.resolution.Internal? && !Settled(c) && c.nameLine != 0 && c.nameCol != 0
  }

  // ---- Recounting ----

  function CountInternal(calls: seq<CallSite>): nat {
    if calls == [] then 0
    else CountInternal(calls[..|calls| - 1]) + (if calls[|calls| - 1].resolution.Internal? then 1 else 0)
  }

  function CountExternal(calls: seq<CallSite>): nat {
    if calls == [] then 0
    else CountExternal(calls[..|calls| - 1]) + (if calls[|calls| - 1].resolution.External? then 1 else 0)
  }

  function CountUnresolved(calls: seq<CallSite>): nat {
    if calls == [] then 0
    else CountUnresolved(calls[..|calls| - 1]) + (if calls[|calls| - 1].resolution.Unresolved? then 1 else 0)
  }

  lemma {:induction false} CountAfter(calls: seq<CallSite>, i: nat, c: CallSite)
    requires i < |calls| && calls[i].resolution.Internal?
    ensures CountInternal(calls[i := c]) == CountInternal(calls) - (if c.resolution.Internal? then 0 else 1)
    ensures CountExternal(calls[i := c]) == CountExternal(calls) + (if c.resolution.External? then 1 else 0)
    ensures CountUnresolved(calls[i := c]) == CountUnresolved(calls) + (if c.resolution.Unresolved? then 1 else 0)
  {
    var n := |calls| - 1;
    if i < n {
      CountAfter(calls[..n], i, c);
      assert calls[i := c][..n] == calls[..n][i := c];
    } else {
      assert calls[i := c][..n] == calls[..n];
    }
  }

  // ---- Sites to ask about ----

  function Sites(calls: seq<CallSite>, handles: nat -> bool, ambiguous: bool): seq<nat> {
    if calls == [] then []
    else
      var n := |calls| - 1;
      var c := calls[n];
      Sites(calls[..n], handles, ambiguous)
      + (if IsSite(c, handles, ambiguous) then [n] else [])
  }

  predicate IsSite(c: CallSite, handles: nat -> bool, ambiguous: bool) {
    Candidate(c) && handles(c.caller) && (c.resolution.ambiguousWith != []) == ambiguous
  }

  lemma {:induction false} SitesMember(calls: seq<CallSite>, handles: nat -> bool, ambiguous: bool, i: nat)
    ensures i in Sites(calls, handles, ambiguous) <==> i < |calls| && IsSite(calls[i], handles, ambiguous)
  {
    if calls != [] {
      var n := |calls| - 1;
      SitesMember(calls[..n], handles, ambiguous, i);
    }
  }

  lemma {:induction false} SitesAscend(calls: seq<CallSite>, handles: nat -> bool, ambiguous: bool)
    ensures Ascending(Sites(calls, handles, ambiguous))
  {
    if calls != [] {
      var n := |calls| - 1;
      SitesAscend(calls[..n], handles, ambiguous);
      var front := Sites(calls[..n], handles, ambiguous);
      forall k | 0 <= k < |front|
        ensures front[k] < n
      {
        SitesMember(calls[..n], handles, ambiguous, front[k]);
      }
    }
  }

  lemma SitesMeaning(calls: seq<CallSite>, handles: nat -> bool, ambiguous: bool)
    ensures forall i: nat ::
      i in Sites(calls, handles, ambiguous) <==> i < |calls| && IsSite(calls[i], handles, ambiguous)
    ensures Ascending(Sites(calls, handles, ambiguous))
  {
    forall i: nat
      ensures i in Sites(calls, handles, ambiguous) <==> i < |calls| && IsSite(calls[i], handles, ambiguous)
    {
      SitesMember(calls, handles, ambiguous, i);
    }
    SitesAscend(calls, handles, ambiguous);
  }

  /** The first `MAX_SITES` of: ambiguous candidates in call order, then the others in call order. */
  ghost function CandidateList(calls: seq<CallSite>, handles: nat -> bool): seq<nat> {
    var all := Sites(calls, handles, true) + Sites(calls, handles, false);
    if |all| <= MAX_SITES then all else all[..MAX_SITES]
  }

  lemma DistinctConcat(a: seq<nat>, h: seq<nat>)
    requires Distinct(a) && Distinct(h) && forall i :: i in a ==> i !in h
    ensures Distinct(a + h)
  {
    var all := a + h;
    forall i, j | 0 <= i < j < |all|
      ensures all[i] != all[j]
    {
      assert i < |a| ==> all[i] in a;
      assert j >= |a| ==> all[j] in h;
    }
  }

  lemma CandidateListMeaning(calls: seq<CallSite>, handles: nat -> bool)
    ensures var list := CandidateList(calls, handles);
            && Distinct(list) && |list| <= 2000
            && (forall i :: i in list ==> i < |calls| && Candidate(calls[i]) && handles(calls[i].caller))
            && (|list| < 2000 ==>
                  forall i :: 0 <= i < |calls| && Candidate(calls[i]) && handles(calls[i].caller) ==> i in list)
  {
    var a, h := Sites(calls, handles, true), Sites(calls, handles, false);
    SitesMeaning(calls, handles, true);
    SitesMeaning(calls, handles, false);
    var all := a + h;
    DistinctConcat(a, h);
    assert forall i :: i in all <==> i in a || i in h;
    assert forall i :: i in CandidateList(calls, handles) ==> i in all;
  }

  /** The list in order: ambiguous sites in call order, then the others in call order, cut at 2000. */
  lemma CandidateOrder(calls: seq<CallSite>, handles: nat -> bool) returns (ambiguous: seq<nat>, others: seq<nat>)
    ensures Ascending(ambiguous) && Ascending(others)
    ensures forall i: nat :: i in ambiguous <==>
              i < |calls| && Candidate(calls[i]) && handles(calls[i].caller)
              && calls[i].resolution.ambiguousWith != []
    ensures forall i: nat :: i in others <==>
              i < |calls| && Candidate(calls[i]) && handles(calls[i].caller)
              && calls[i].resolution.ambiguousWith == []
    ensures var all := ambiguous + others;
            CandidateList(calls, handles) == if |all| <= 2000 then all else all[..2000]
  {
    ambiguous, others := Sites(calls, handles, true), Sites(calls, handles, false);
    SitesMeaning(calls, handles, true);
    SitesMeaning(calls, handles, false);
  }

  /** A site without ambiguity is asked about only when every ambiguous one is. */
  lemma AmbiguousFirst(calls: seq<CallSite>, handles: nat -> bool, i: nat, j: nat)
    requires i in CandidateList(calls, handles) && i < |calls| && IsSite(calls[i], handles, false)
    requires j < |calls| && IsSite(calls[j], handles, true)
    ensures j in CandidateList(calls, handles)
  {
    var a, h := Sites(calls, handles, true), Sites(calls, handles, false);
    SitesMember(calls, handles, true, i);
    SitesMember(calls, handles, true, j);
    var all := a + h;
    if |all| > MAX_SITES {
      var k :| 0 <= k < MAX_SITES && all[k] == i;
      assert k >= |a|;
      var n :| 0 <= n < |a| && a[n] == j;
      assert all[..MAX_SITES][n] == j;
    }
  }

  method CandidateSites(calls: seq<CallSite>, handles: nat -> bool) returns (sites: seq<nat>)
    ensures sites == CandidateList(calls, handles)
  {
    var ambiguous: seq<nat>, heuristic: seq<nat> := [], [];
    for idx := 0 to |calls|
      invariant ambiguous == Sites(calls[..idx], handles, true)
      invariant heuristic == Sites(calls[..idx], handles, false)
    {
      assert calls[..idx + 1][..idx] == calls[..idx];
      var call := calls[idx];
      if !call.resolution.Internal? {
        continue;
      }
      if call.resolution.confidence == High && call.resolution.ambiguousWith == [] {
        continue;
      }
      if call.nameLine == 0 || call.nameCol == 0 {
        continue;
      }
      if !handles(call.caller) {
        continue;
      }
      if call.resolution.ambiguousWith == [] {
        heuristic := heuristic + [idx];
      } else {
        ambiguous := ambiguous + [idx];
      }
    }
    assert calls[..|calls|] == calls;
    sites := ambiguous + heuristic;
    if |sites| > MAX_SITES {
      sites := sites[..MAX_SITES];
    }
  }

  // ---- From a definition to a function ----

  predicate Eligible(f: FunctionInfo, ans: Answer) {
    f.file == ans.file && !f.isToplevel
  }

  predicate Holds(f: FunctionInfo, ans: Answer) {
    f.startLine <= ans.line <= f.endLine
  }

  function Span(f: FunctionInfo): int {
    f.endLine - f.startLine
  }

  /** `f` is the first function that starts on the line; without one, the first of the shortest that
      span it. */
  ghost predicate Located(functions: seq<FunctionInfo>, ans: Answer, f: nat) {
    && f < |functions| && Eligible(functions[f], ans)
    && if Starts(functions, ans) then
         functions[f].startLine == ans.line
         && forall i :: 0 <= i < f && Eligible(functions[i], ans) ==> functions[i].startLine != ans.line
       else
         && Holds(functions[f], ans)
         && (forall i :: 0 <= i < |functions| && Eligible(functions[i], ans) && Holds(functions[i], ans) ==>
               Span(functions[f]) <= Span(functions[i]) && (i < f ==> Span(functions[f]) < Span(functions[i])))
  }

  ghost predicate Starts(functions: seq<FunctionInfo>, ans: Answer) {
    exists i :: 0 <= i < |functions| && Eligible(functions[i], ans) && functions[i].startLine == ans.line
  }

  /** `r` is where the answer points, if it points into the index at all. */
  ghost predicate Locates(functions: seq<FunctionInfo>, ans: Answer, r: Option<nat>) {
    match r
    case Some(f) => Located(functions, ans, f)
    case None => forall i :: 0 <= i < |functions| && Eligible(functions[i], ans) ==>
                   functions[i].startLine != ans.line && !Holds(functions[i], ans)
  }

  lemma LocatesOnce(functions: seq<FunctionInfo>, ans: Answer, r: Option<nat>, q: Option<nat>)
    requires Locates(functions, ans, r) && Locates(functions, ans, q)
    ensures r == q
  {
    if r.Some? && q.Some? {
      assert functions[r.value] == functions[r.value] && functions[q.value] == functions[q.value];
    }
  }

  method FunctionAt(functions: seq<FunctionInfo>, ans: Answer) returns (r: Option<nat>)
    ensures Locates(functions, ans, r)
  {
    r := None;
    for k := 0 to |functions|
      invariant forall i :: 0 <= i < k && Eligible(functions[i], ans) ==> functions[i].startLine != ans.line
      invariant r.None? ==> forall i :: 0 <= i < k && Eligible(functions[i], ans) ==> !Holds(functions[i], ans)
      invariant r.Some? ==>
        && r.value < k && Eligible(functions[r.value], ans) && Holds(functions[r.value], ans)
        && (forall i :: 0 <= i < k && Eligible(functions[i], ans) && Holds(functions[i], ans) ==>
              functions[r.value].endLine - functions[r.value].startLine <= functions[i].endLine - functions[i].startLine
              && (i < r.value ==>
                    functions[r.value].endLine - functions[r.value].startLine <
                    functions[i].endLine - functions[i].startLine))
    {
      var f := functions[k];
      if f.file == ans.file && !f.isToplevel {
        if f.startLine == ans.line {
          return Some(k);
        }
        if f.startLine <= ans.line <= f.endLine {
          if r.None? || f.endLine - f.startLine < functions[r.value].endLine - functions[r.value].startLine {
            r := Some(k);
          }
        }
      }
    }
  }

  // ---- The graph ----

  class GigaGraph {
    const functions: seq<FunctionInfo>
    var calls: seq<CallSite>
    var callsByCaller: seq<seq<nat>>
    var callersOf: map<nat, seq<nat>>
    var packageCalls: map<string, seq<nat>>
    var lspConfirmed: set<nat>

    /** `callersOf` and `packageCalls` list exactly the calls resolved to each function and package;
        whatever a server confirmed or corrected is settled. */
    ghost predicate Valid()
      reads this
    {
      && Mirrors(callersOf, Callees(calls))
      && Mirrors(packageCalls, Packages(calls))
      && (forall i :: i in lspConfirmed ==> i < |calls| && Settled(calls[i]))
    }

    /** Built from the resolved call sites of each function, in order. */
    constructor (fs: seq<FunctionInfo>, resolved: seq<seq<CallSite>>)
      requires forall f :: 0 <= f < |resolved| ==> forall c :: c in resolved[f] ==> c.caller == f
      ensures Valid() && lspConfirmed == {} && functions == fs
      ensures calls == Flattened(resolved)
      ensures ListsCallers(callsByCaller, calls, |resolved|)
    {
      functions := fs;
      calls, callsByCaller, callersOf, packageCalls, lspConfirmed := [], [], map[], map[], {};
      new;
      calls, callsByCaller, callersOf, packageCalls := BuildIndexes(resolved);
    }

    /** A server placed the definition in `confirmed`: the call is re-pointed there with High
        confidence. True when that is another function than before. */
    method ApplyAnswer(i: nat, confirmed: nat) returns (changed: bool)
      requires Valid() && i < |calls|
      modifies `calls, `callersOf, `lspConfirmed
      ensures Valid()
      ensures var c := old(calls)[i];
        if c.resolution.Internal? then
          && calls == old(calls)[i := Resolved(c, Internal(confirmed, High, []))]
          && lspConfirmed == old(lspConfirmed) + {i}
          && changed == (c.resolution.callee != confirmed)
        else calls == old(calls) && lspConfirmed == old(lspConfirmed) && callersOf == old(callersOf) && !changed
    {
      var call := calls[i];
      if !call.resolution.Internal? {
        return false;
      }
      RewriteInternal(calls, i, callersOf, packageCalls, confirmed);
      var prior := call.resolution.callee;
      changed := prior != confirmed;
      calls := calls[i := call.(resolution := Internal(confirmed, High, []))];
      if changed {
        callersOf := Add(Drop(callersOf, prior, i), confirmed, i);
      }
      lspConfirmed := lspConfirmed + {i};
    }

    /** A server placed the definition in an installed package: the internal edge was wrong. */
    method Externalize(i: nat, package: string) returns (done: bool)
      requires Valid() && i < |calls|
      modifies `calls, `callersOf, `packageCalls, `lspConfirmed
      ensures Valid()
      ensures var c := old(calls)[i];
        if c.resolution.Internal? then
          && calls == old(calls)[i := Resolved(c, External(package))]
          && lspConfirmed == old(lspConfirmed) + {i}
          && done
        else calls == old(calls) && lspConfirmed == old(lspConfirmed)
             && callersOf == old(callersOf) && packageCalls == old(packageCalls) && !done
    {
      var call := calls[i];
      if !call.resolution.Internal? {
        return false;
      }
      RewriteExternal(calls, i, callersOf, packageCalls, package);
      calls := calls[i := call.(resolution := External(package))];
      callersOf := Drop(callersOf, call.resolution.callee, i);
      packageCalls := Add(packageCalls, package, i);
      lspConfirmed := lspConfirmed + {i};
      done := true;
    }

    /** One answer: a function of the index, a package (`packageOf` reads it off the path), or
        nothing that can be used. */
    method Settle(i: nat, ans: Option<Answer>, packageOf: string -> Option<string>, before: Outcome)
      returns (after: Outcome, ghost target: Option<nat>)
      requires Valid() && i < |calls| && calls[i].resolution.Internal? && i !in lspConfirmed
      modifies `calls, `callersOf, `packageCalls, `lspConfirmed
      ensures Valid()
      ensures ans.Some? ==> Locates(functions, ans.value, target)
      ensures calls == old(calls)[i := Resolved(old(calls)[i], Rewritten(old(calls)[i], ans, target, packageOf))]
      ensures lspConfirmed == old(lspConfirmed) + (if Usable(ans, target, packageOf) then {i} else {})
      ensures after == Tally(before, i in lspConfirmed, old(calls)[i], calls[i])
      ensures !calls[i].resolution.External? ==> packageCalls == old(packageCalls)
    {
      target := None;
      after := before.(unresolved := before.unresolved + 1);
      if ans.None? {
        return;
      }
      var f := FunctionAt(functions, ans.value);
      target := f;
      if f.Some? {
        var changed := ApplyAnswer(i, f.value);
        after := if changed then before.(corrected := before.corrected + 1)
                 else before.(confirmed := before.confirmed + 1);
      } else if packageOf(ans.value.file).Some? {
        var done := Externalize(i, packageOf(ans.value.file).value);
        if done {
          after := before.(corrected := before.corrected + 1, externalized := before.externalized + 1);
        }
      }
    }

    /** What a pass may have done so far, compared with the graph it started from. */
    ghost predicate Progress(calls0: seq<CallSite>, confirmed0: set<nat>, packages0: map<string, seq<nat>>,
        o: Outcome)
      reads this
    {
      && confirmed0 <= lspConfirmed
      && Accounts(calls0, calls, lspConfirmed - confirmed0, o)
      && (o.externalized == 0 ==> packageCalls == packages0)
    }

    /** What a pass may have done so far, and one more call. */
    method SettleNext(i: nat, ans: Option<Answer>, packageOf: string -> Option<string>, before: Outcome,
        ghost calls0: seq<CallSite>, ghost confirmed0: set<nat>, ghost packages0: map<string, seq<nat>>)
      returns (after: Outcome)
      requires Valid() && Progress(calls0, confirmed0, packages0, before)
      requires i < |calls| && calls[i].resolution.Internal? && i !in lspConfirmed
      modifies `calls, `callersOf, `packageCalls, `lspConfirmed
      ensures Valid() && Progress(calls0, confirmed0, packages0, after)
      ensures old(lspConfirmed) <= lspConfirmed <= old(lspConfirmed) + {i}
      ensures |calls| == |old(calls)| && calls == old(calls)[i := calls[i]]
      ensures SettledAs(functions, packageOf, old(calls)[i], ans, calls[i], i in lspConfirmed)
      ensures Total(after) == Total(before) + 1
    {
      ghost var touched := lspConfirmed - confirmed0;
      ghost var target: Option<nat>;
      after, target := Settle(i, ans, packageOf, before);
      assert SettledTo(functions, packageOf, old(calls)[i], ans, calls[i], i in lspConfirmed, target);
      if i in lspConfirmed {
        assert lspConfirmed - confirmed0 == touched + {i};
        AccountsStep(calls0, old(calls), touched, before, i, calls[i].resolution);
      } else {
        assert lspConfirmed - confirmed0 == touched;
        assert calls == old(calls);
      }
    }

    /** The answers for a list of sites, one after the other. */
    method SettleAll(answers: Answers, packageOf: string -> Option<string>, before: Outcome,
        ghost calls0: seq<CallSite>, ghost confirmed0: set<nat>, ghost packages0: map<string, seq<nat>>)
      returns (after: Outcome)
      requires Valid() && Progress(calls0, confirmed0, packages0, before)
      requires forall j :: 0 <= j < |answers| ==>
        answers[j].0 < |calls| && calls[answers[j].0].resolution.Internal? && answers[j].0 !in lspConfirmed
      requires forall i, j :: 0 <= i < j < |answers| ==> answers[i].0 != answers[j].0
      modifies `calls, `callersOf, `packageCalls, `lspConfirmed
      ensures Valid() && Progress(calls0, confirmed0, packages0, after)
      ensures old(lspConfirmed) <= lspConfirmed
      ensures SettledUpTo(functions, packageOf, answers, |answers|, old(calls), old(lspConfirmed), calls, lspConfirmed)
      ensures Total(after) == Total(before) + |answers|
    {
      after := before;
      for k := 0 to |answers|
        invariant Valid() && Progress(calls0, confirmed0, packages0, after)
        invariant old(lspConfirmed) <= lspConfirmed
        invariant SettledUpTo(functions, packageOf, answers, k, old(calls), old(lspConfirmed), calls, lspConfirmed)
        invariant Total(after) == Total(before) + k
      {
        ghost var mid, known := calls, lspConfirmed;
        after := SettleNext(answers[k].0, answers[k].1, packageOf, after, calls0, confirmed0, packages0);
        SettledNext(functions, packageOf, answers, k, old(calls), old(lspConfirmed), mid, known,
                    calls[answers[k].0], lspConfirmed);
      }
    }

    /** All sites of one provider. */
    method EnrichWith(p: Provider, packageOf: string -> Option<string>, before: Outcome,
        ghost calls0: seq<CallSite>, ghost confirmed0: set<nat>, ghost packages0: map<string, seq<nat>>)
      returns (after: Outcome)
      requires Valid() && Progress(calls0, confirmed0, packages0, before)
      modifies `calls, `callersOf, `packageCalls, `lspConfirmed
      ensures Valid() && Progress(calls0, confirmed0, packages0, after)
      ensures Share(functions, packageOf, p, old(calls), old(lspConfirmed), calls, lspConfirmed)
      ensures Total(after) == Total(before) + |AnswersFor(p, CandidateList(old(calls), p.handles))|
      ensures |calls| == |old(calls)|
      ensures forall i :: i in old(lspConfirmed) ==> i in lspConfirmed && calls[i] == old(calls)[i]
    {
      after := before;
      var sites := CandidateSites(calls, p.handles);
      if sites != [] {
        var answers := Collect(p, sites);
        AnswersAreOpen(p, calls, lspConfirmed);
        after := SettleAll(answers, packageOf, after, calls0, confirmed0, packages0);
      }
      AnswersAreOpen(p, old(calls), old(lspConfirmed));
    }

    /** All providers, each on what the ones before it left. */
    method EnrichAll(providers: seq<Provider>, packageOf: string -> Option<string>)
      returns (o: Outcome, ghost moments: seq<Moment>)
      requires Valid()
      modifies `calls, `callersOf, `packageCalls, `lspConfirmed
      ensures Valid() && Progress(old(calls), old(lspConfirmed), old(packageCalls), o)
      ensures Turns(functions, packageOf, providers, moments)
      ensures moments[0] == old(Now()) && moments[|providers|] == Now()
    {
      o := NO_OUTCOME;
      moments := [Now()];
      NothingDone(calls, lspConfirmed);
      for k := 0 to |providers|
        invariant Valid() && Progress(old(calls), old(lspConfirmed), old(packageCalls), o)
        invariant Turns(functions, packageOf, providers[..k], moments)
        invariant moments[0] == old(Now()) && moments[k] == Now()
      {
        o := EnrichWith(providers[k], packageOf, o, old(calls), old(lspConfirmed), old(packageCalls));
        OneMoreTurn(functions, packageOf, providers, k, moments, Now());
        moments := moments + [Now()];
      }
      assert providers[..|providers|] == providers;
    }

    ghost function Now(): Moment
      reads this
    {
      Moment(calls, lspConfirmed)
    }
  }

  function Flattened(resolved: seq<seq<CallSite>>): seq<CallSite> {
    if resolved == [] then [] else Flattened(resolved[..|resolved| - 1]) + resolved[|resolved| - 1]
  }

  /** The call sites of each function, one function after the other. */
  lemma {:induction false} FlattenedMeaning(a: seq<seq<CallSite>>, b: seq<seq<CallSite>>, sites: seq<CallSite>)
    ensures Flattened(a + b) == Flattened(a) + Flattened(b)
    ensures Flattened([sites]) == sites
  {
    if b == [] {
      assert a + b == a;
    } else {
      var n := |b| - 1;
      FlattenedMeaning(a, b[..n], sites);
      assert (a + b)[..|a| + n] == a + b[..n];
      Regroup(Flattened(a), Flattened(b[..n]), b[n]);
    }
  }

  ghost predicate ListsCallers(byCaller: seq<seq<nat>>, calls: seq<CallSite>, n: nat) {
    && |byCaller| == n
    && forall f :: 0 <= f < n ==> ListsCaller(byCaller[f], calls, f)
  }

  ghost predicate ListsCaller(list: seq<nat>, calls: seq<CallSite>, f: nat) {
    Ascending(list) && forall i: nat :: i in list <==> i < |calls| && calls[i].caller == f
  }

  lemma ListPush(byCaller: seq<seq<nat>>, calls: seq<CallSite>, site: CallSite, n: nat)
    requires ListsCallers(byCaller, calls, n) && site.caller < n
    ensures ListsCallers(byCaller[site.caller := byCaller[site.caller] + [|calls|]], calls + [site], n)
  {
    var after := byCaller[site.caller := byCaller[site.caller] + [|calls|]];
    forall f | 0 <= f < n
      ensures ListsCaller(after[f], calls + [site], f)
    {
      assert ListsCaller(byCaller[f], calls, f);
      var list := byCaller[f];
      assert forall i :: 0 <= i < |list| ==> list[i] in list;
    }
  }

  /** The build loop: every call goes to the end of `calls` and under its caller, its callee or its
      package. */
  method BuildIndexes(resolved: seq<seq<CallSite>>)
    returns (calls: seq<CallSite>, byCaller: seq<seq<nat>>,
             callersOf: map<nat, seq<nat>>, packageCalls: map<string, seq<nat>>)
    requires forall f :: 0 <= f < |resolved| ==> forall c :: c in resolved[f] ==> c.caller == f
    ensures calls == Flattened(resolved)
    ensures ListsCallers(byCaller, calls, |resolved|)
    ensures Mirrors(callersOf, Callees(calls)) && Mirrors(packageCalls, Packages(calls))
  {
    calls, callersOf, packageCalls := [], map[], map[];
    byCaller := seq(|resolved|, _ => []);
    for f := 0 to |resolved|
      invariant calls == Flattened(resolved[..f])
      invariant ListsCallers(byCaller, calls, |resolved|)
      invariant Mirrors(callersOf, Callees(calls)) && Mirrors(packageCalls, Packages(calls))
    {
      assert resolved[..f + 1][..f] == resolved[..f];
      ghost var before := calls;
      for k := 0 to |resolved[f]|
        invariant calls == before + resolved[f][..k]
        invariant ListsCallers(byCaller, calls, |resolved|)
        invariant Mirrors(callersOf, Callees(calls)) && Mirrors(packageCalls, Packages(calls))
      {
        var site := resolved[f][k];
        assert site in resolved[f];
        assert before + resolved[f][..k + 1] == before + resolved[f][..k] + [site];
        PushSite(calls, site, callersOf, packageCalls);
        ListPush(byCaller, calls, site, |resolved|);
        var idx := |calls|;
        match site.resolution {
          case Internal(callee, _, _) => callersOf := Add(callersOf, callee, idx);
          case External(package) => packageCalls := Add(packageCalls, package, idx);
          case Unresolved =>
        }
        byCaller := byCaller[f := byCaller[f] + [idx]];
        calls := calls + [site];
      }
      assert resolved[f][..|resolved[f]|] == resolved[f];
    }
    assert resolved[..|resolved|] == resolved;
  }

  lemma PushSite(calls: seq<CallSite>, site: CallSite, callersOf: map<nat, seq<nat>>,
      packageCalls: map<string, seq<nat>>)
    requires Mirrors(callersOf, Callees(calls)) && Mirrors(packageCalls, Packages(calls))
    ensures Mirrors(if site.resolution.Internal? then Add(callersOf, site.resolution.callee, |calls|) else callersOf,
                    Callees(calls + [site]))
    ensures Mirrors(if site.resolution.External? then Add(packageCalls, site.resolution.package, |calls|)
                    else packageCalls,
                    Packages(calls + [site]))
  {
    PushMirrors(callersOf, Callees(calls), CalleeOf(site));
    PushMirrors(packageCalls, Packages(calls), PackageOf(site));
    assert Callees(calls + [site]) == Callees(calls) + [CalleeOf(site)];
    assert Packages(calls + [site]) == Packages(calls) + [PackageOf(site)];
  }

  // ---- Rewriting one call ----

  function Resolved(c: CallSite, r: Resolution): CallSite {
    c.(resolution := r)
  }

  lemma RewriteInternal(calls: seq<CallSite>, i: nat, callersOf: map<nat, seq<nat>>,
      packageCalls: map<string, seq<nat>>, callee: nat)
    requires Mirrors(callersOf, Callees(calls)) && Mirrors(packageCalls, Packages(calls))
    requires i < |calls| && calls[i].resolution.Internal?
    ensures var prior := calls[i].resolution.callee;
            var after := calls[i := Resolved(calls[i], Internal(callee, High, []))];
            && Mirrors(if prior == callee then callersOf else Add(Drop(callersOf, prior, i), callee, i), Callees(after))
            && Mirrors(packageCalls, Packages(after))
  {
    var prior := calls[i].resolution.callee;
    var after := calls[i := Resolved(calls[i], Internal(callee, High, []))];
    assert Packages(after) == Packages(calls);
    if prior == callee {
      assert Callees(after) == Callees(calls);
    } else {
      var keys := Callees(calls);
      DropMirrors(callersOf, keys, prior, i);
      AddMirrors(Drop(callersOf, prior, i), keys[i := None], callee, i);
      assert Callees(after) == keys[i := None][i := Some(callee)];
    }
  }

  lemma RewriteExternal(calls: seq<CallSite>, i: nat, callersOf: map<nat, seq<nat>>,
      packageCalls: map<string, seq<nat>>, package: string)
    requires Mirrors(callersOf, Callees(calls)) && Mirrors(packageCalls, Packages(calls))
    requires i < |calls| && calls[i].resolution.Internal?
    ensures var after := calls[i := Resolved(calls[i], External(package))];
            && Mirrors(Drop(callersOf, calls[i].resolution.callee, i), Callees(after))
            && Mirrors(Add(packageCalls, package, i), Packages(after))
  {
    var after := calls[i := Resolved(calls[i], External(package))];
    DropMirrors(callersOf, Callees(calls), calls[i].resolution.callee, i);
    AddMirrors(packageCalls, Packages(calls), package, i);
    assert Callees(after) == Callees(calls)[i := None];
    assert Packages(after) == Packages(calls)[i := Some(package)];
  }

  // ---- Answers for a list of sites ----

  type Answers = seq<(nat, Option<Answer>)>

  function FromCache(p: Provider, sites: seq<nat>): Answers {
    if sites == [] then []
    else
      var n := |sites| - 1;
      FromCache(p, sites[..n]) + (if p.cached(sites[n]).Some? then [(sites[n], p.cached(sites[n]).value)] else [])
  }

  function Uncached(p: Provider, sites: seq<nat>): seq<nat> {
    if sites == [] then []
    else
      var n := |sites| - 1;
      Uncached(p, sites[..n]) + (if p.cached(sites[n]).None? then [sites[n]] else [])
  }

  /** What a server said about the first `n` sites; a missing answer past the deadline is dropped. */
  function FromServer(p: Provider, live: seq<nat>, answers: seq<Option<Answer>>, n: nat): Answers
    requires n <= |live| && n <= |answers|
  {
    if n == 0 then []
    else
      FromServer(p, live, answers, n - 1)
      + (if p.late(live[n - 1]) && answers[n - 1].None? then [] else [(live[n - 1], answers[n - 1])])
  }

  function Served(p: Provider, live: seq<nat>): Answers {
    if live == [] || p.resolve(live).None? then []
    else
      var answers := p.resolve(live).value;
      FromServer(p, live, answers, if |live| < |answers| then |live| else |answers|)
  }

  /** Cached answers first, then what the server said about the rest, as far as it got. */
  function AnswersFor(p: Provider, sites: seq<nat>): Answers {
    FromCache(p, sites) + Served(p, Uncached(p, sites))
  }

  /** Sites of `sites`, each at most once. */
  ghost predicate Once(answers: Answers, sites: seq<nat>) {
    && (forall i :: 0 <= i < |answers| ==> answers[i].0 in sites)
    && (forall i, j :: 0 <= i < j < |answers| ==> answers[i].0 != answers[j].0)
  }

  lemma {:induction false} FromCacheOnce(p: Provider, sites: seq<nat>)
    requires Distinct(sites)
    ensures Once(FromCache(p, sites), sites)
    ensures forall i :: 0 <= i < |FromCache(p, sites)| ==> p.cached(FromCache(p, sites)[i].0).Some?
  {
    if sites != [] {
      var n := |sites| - 1;
      FromCacheOnce(p, sites[..n]);
      assert sites == sites[..n] + [sites[n]];
      assert sites[n] !in sites[..n];
    }
  }

  lemma {:induction false} UncachedOnce(p: Provider, sites: seq<nat>)
    requires Distinct(sites)
    ensures Distinct(Uncached(p, sites))
    ensures forall x :: x in Uncached(p, sites) ==> x in sites && p.cached(x).None?
  {
    if sites != [] {
      var n := |sites| - 1;
      UncachedOnce(p, sites[..n]);
      assert sites == sites[..n] + [sites[n]];
      assert sites[n] !in sites[..n];
    }
  }

  lemma {:induction false} FromServerOnce(p: Provider, live: seq<nat>, answers: seq<Option<Answer>>, n: nat)
    requires Distinct(live) && n <= |live| && n <= |answers|
    ensures Once(FromServer(p, live, answers, n), live[..n])
  {
    if n > 0 {
      FromServerOnce(p, live, answers, n - 1);
      assert live[..n] == live[..n - 1] + [live[n - 1]];
      assert live[n - 1] !in live[..n - 1];
    }
  }

  lemma AnswersOnce(p: Provider, sites: seq<nat>)
    requires Distinct(sites)
    ensures Once(AnswersFor(p, sites), sites)
  {
    FromCacheOnce(p, sites);
    UncachedOnce(p, sites);
    var live := Uncached(p, sites);
    if live != [] && p.resolve(live).Some? {
      var answers := p.resolve(live).value;
      FromServerOnce(p, live, answers, if |live| < |answers| then |live| else |answers|);
    }
    var front, back := FromCache(p, sites), Served(p, live);
    assert Once(back, live);
    assert forall i :: 0 <= i < |back| ==> p.cached(back[i].0).None?;
  }

  // ---- Which answer a site gets ----

  /** `live` are the sites without a cached answer, in the order of the list: `places` is where they
      stand in it. */
  ghost predicate Live(p: Provider, sites: seq<nat>, live: seq<nat>, places: seq<nat>) {
    && Picks(sites, places, live)
    && (forall i: nat :: i in places <==> i < |sites| && p.cached(sites[i]).None?)
  }

  /** The server was asked for `live` and said `v` about `x` at the place of `x`, with something to
      say or in time. */
  ghost predicate Said(p: Provider, live: seq<nat>, x: nat, v: Option<Answer>) {
    && p.resolve(live).Some?
    && exists i :: 0 <= i < |live| && i < |p.resolve(live).value|
         && live[i] == x && p.resolve(live).value[i] == v && (v.Some? || !p.late(x))
  }

  lemma {:induction false} UncachedLive(p: Provider, sites: seq<nat>) returns (places: seq<nat>)
    ensures Live(p, sites, Uncached(p, sites), places)
  {
    if sites == [] {
      places := [];
    } else {
      var n := |sites| - 1;
      var front := UncachedLive(p, sites[..n]);
      PicksNext(sites[..n], front, Uncached(p, sites[..n]), sites[n]);
      assert sites == sites[..n] + [sites[n]];
      places := front + if p.cached(sites[n]).None? then [n] else [];
      forall i: nat
        ensures i in places <==> i < |sites| && p.cached(sites[i]).None?
      {
        assert i in places <==> i in front || (i == n && p.cached(sites[n]).None?);
      }
    }
  }

  lemma {:induction false} CacheSaid(p: Provider, sites: seq<nat>, x: nat, v: Option<Answer>)
    ensures (x, v) in FromCache(p, sites) <==> x in sites && p.cached(x) == Some(v)
  {
    if sites != [] {
      var n := |sites| - 1;
      CacheSaid(p, sites[..n], x, v);
      assert sites == sites[..n] + [sites[n]];
    }
  }

  lemma {:induction false} ServerSaid(p: Provider, live: seq<nat>, answers: seq<Option<Answer>>, n: nat,
      x: nat, v: Option<Answer>)
    requires n <= |live| && n <= |answers|
    ensures (x, v) in FromServer(p, live, answers, n) <==>
              exists i :: 0 <= i < n && live[i] == x && answers[i] == v && (v.Some? || !p.late(x))
  {
    if n > 0 {
      ServerSaid(p, live, answers, n - 1, x, v);
    }
  }

  /** A site is answered from the cache, or with what the server said at its place in the request. */
  lemma AnswersMeaning(p: Provider, sites: seq<nat>) returns (live: seq<nat>, places: seq<nat>)
    ensures Live(p, sites, live, places)
    ensures forall x, v ::
              (x, v) in AnswersFor(p, sites) <==> (x in sites && p.cached(x) == Some(v)) || Said(p, live, x, v)
  {
    live := Uncached(p, sites);
    places := UncachedLive(p, sites);
    forall x, v
      ensures (x, v) in AnswersFor(p, sites) <==> (x in sites && p.cached(x) == Some(v)) || Said(p, live, x, v)
    {
      CacheSaid(p, sites, x, v);
      if live != [] && p.resolve(live).Some? {
        var answers := p.resolve(live).value;
        ServerSaid(p, live, answers, if |live| < |answers| then |live| else |answers|, x, v);
      }
    }
  }

  method Collect(p: Provider, sites: seq<nat>) returns (resolved: Answers)
    ensures resolved == AnswersFor(p, sites)
  {
    resolved := [];
    var live: seq<nat> := [];
    for k := 0 to |sites|
      invariant resolved == FromCache(p, sites[..k]) && live == Uncached(p, sites[..k])
    {
      assert sites[..k + 1][..k] == sites[..k];
      match p.cached(sites[k]) {
        case Some(ans) => resolved := resolved + [(sites[k], ans)];
        case None => live := live + [sites[k]];
      }
    }
    assert sites[..|sites|] == sites;
    if live != [] {
      match p.resolve(live) {
        case None =>
        case Some(answers) =>
          ghost var cached := resolved;
          for k := 0 to if |live| < |answers| then |live| else |answers|
            invariant resolved == cached + FromServer(p, live, answers, k)
          {
            if p.late(live[k]) && answers[k].None? {
              continue;
            }
            resolved := resolved + [(live[k], answers[k])];
          }
      }
    }
  }

  // ---- What becomes of the answered calls ----

  /** An answer that names a function or a package. */
  predicate Usable(ans: Option<Answer>, target: Option<nat>, packageOf: string -> Option<string>) {
    ans.Some? && (target.Some? || packageOf(ans.value.file).Some?)
  }

  function Rewritten(c: CallSite, ans: Option<Answer>, target: Option<nat>,
      packageOf: string -> Option<string>): Resolution {
    if !Usable(ans, target, packageOf) then c.resolution
    else if target.Some? then Internal(target.value, High, [])
    else External(packageOf(ans.value.file).value)
  }

  /** `c` is what the answer makes of `c0`, confirmed exactly when the answer is usable. */
  ghost predicate SettledAs(functions: seq<FunctionInfo>, packageOf: string -> Option<string>, c0: CallSite,
      ans: Option<Answer>, c: CallSite, confirmed: bool) {
    exists target :: SettledTo(functions, packageOf, c0, ans, c, confirmed, target)
  }

  ghost predicate SettledTo(functions: seq<FunctionInfo>, packageOf: string -> Option<string>, c0: CallSite,
      ans: Option<Answer>, c: CallSite, confirmed: bool, target: Option<nat>) {
    && (ans.Some? ==> Locates(functions, ans.value, target))
    && c == Resolved(c0, Rewritten(c0, ans, target, packageOf))
    && (confirmed <==> Usable(ans, target, packageOf))
  }

  /** The first `k` answers have been settled, and no other call was touched. */
  ghost predicate SettledUpTo(functions: seq<FunctionInfo>, packageOf: string -> Option<string>,
      answers: Answers, k: nat,
      calls0: seq<CallSite>, confirmed0: set<nat>, calls: seq<CallSite>, confirmed: set<nat>)
    requires k <= |answers| && forall j :: 0 <= j < |answers| ==> answers[j].0 < |calls0|
  {
    && |calls| == |calls0|
    && (forall j {:trigger answers[j]} :: 0 <= j < k ==>
          SettledAs(functions, packageOf, calls0[answers[j].0], answers[j].1, calls[answers[j].0],
                    answers[j].0 in confirmed))
    && (forall i :: 0 <= i < |calls| && (forall j {:trigger answers[j]} :: 0 <= j < k ==> answers[j].0 != i) ==>
          calls[i] == calls0[i])
    && (forall i {:trigger i in confirmed} :: (forall j {:trigger answers[j]} :: 0 <= j < k ==> answers[j].0 != i) ==>
          (i in confirmed <==> i in confirmed0))
  }

  lemma SettledNext(functions: seq<FunctionInfo>, packageOf: string -> Option<string>, answers: Answers, k: nat,
      calls0: seq<CallSite>, confirmed0: set<nat>, calls: seq<CallSite>, confirmed: set<nat>,
      c: CallSite, now: set<nat>)
    requires k < |answers| && forall j :: 0 <= j < |answers| ==> answers[j].0 < |calls0|
    requires forall i, j :: 0 <= i < j < |answers| ==> answers[i].0 != answers[j].0
    requires SettledUpTo(functions, packageOf, answers, k, calls0, confirmed0, calls, confirmed)
    requires calls[answers[k].0] == calls0[answers[k].0]
    requires confirmed <= now <= confirmed + {answers[k].0}
    requires SettledAs(functions, packageOf, calls0[answers[k].0], answers[k].1, c, answers[k].0 in now)
    ensures SettledUpTo(functions, packageOf, answers, k + 1, calls0, confirmed0, calls[answers[k].0 := c], now)
  {
    var after := calls[answers[k].0 := c];
    forall j {:trigger answers[j]} | 0 <= j < k + 1
      ensures SettledAs(functions, packageOf, calls0[answers[j].0], answers[j].1, after[answers[j].0],
                        answers[j].0 in now)
    {
      if j < k {
        assert answers[j].0 != answers[k].0;
      }
    }
    forall i | forall j {:trigger answers[j]} :: 0 <= j < k + 1 ==> answers[j].0 != i
      ensures i in now <==> i in confirmed0
      ensures 0 <= i < |calls| ==> after[i] == calls0[i]
    {
      assert answers[k].0 != i;
    }
  }

  /** Answers are for internal calls that no server has settled yet, each at most once. */
  lemma AnswersAreOpen(p: Provider, calls: seq<CallSite>, confirmed: set<nat>)
    requires forall i :: i in confirmed ==> i < |calls| && Settled(calls[i])
    ensures var answers := AnswersFor(p, CandidateList(calls, p.handles));
            && (forall j :: 0 <= j < |answers| ==>
                  answers[j].0 < |calls| && calls[answers[j].0].resolution.Internal? && answers[j].0 !in confirmed)
            && (forall i, j :: 0 <= i < j < |answers| ==> answers[i].0 != answers[j].0)
  {
    CandidateListMeaning(calls, p.handles);
    var sites := CandidateList(calls, p.handles);
    AnswersOnce(p, sites);
    var answers := AnswersFor(p, sites);
    forall j | 0 <= j < |answers|
      ensures answers[j].0 < |calls| && calls[answers[j].0].resolution.Internal? && answers[j].0 !in confirmed
    {
      assert answers[j].0 in sites && Candidate(calls[answers[j].0]);
    }
  }

  /** One provider's share of a pass: its answers for the candidate list, each settled. */
  ghost predicate Share(functions: seq<FunctionInfo>, packageOf: string -> Option<string>, p: Provider,
      calls0: seq<CallSite>, confirmed0: set<nat>, calls: seq<CallSite>, confirmed: set<nat>)
  {
    var answers := AnswersFor(p, CandidateList(calls0, p.handles));
    && (forall j :: 0 <= j < |answers| ==> answers[j].0 < |calls0|)
    && SettledUpTo(functions, packageOf, answers, |answers|, calls0, confirmed0, calls, confirmed)
  }

  /** The calls at one moment of a pass, and which of them a server has settled. */
  datatype Moment = Moment(calls: seq<CallSite>, confirmed: set<nat>)

  /** The providers take their turns, each on what the ones before it left. */
  ghost predicate Turns(functions: seq<FunctionInfo>, packageOf: string -> Option<string>,
      providers: seq<Provider>, moments: seq<Moment>) {
    && |moments| == |providers| + 1
    && forall k {:trigger TurnAt(functions, packageOf, providers, moments, k)} ::
         0 <= k < |providers| ==> TurnAt(functions, packageOf, providers, moments, k)
  }

  ghost predicate TurnAt(functions: seq<FunctionInfo>, packageOf: string -> Option<string>,
      providers: seq<Provider>, moments: seq<Moment>, k: nat)
    requires k < |providers| && k + 1 < |moments|
  {
    Share(functions, packageOf, providers[k], moments[k].calls, moments[k].confirmed,
          moments[k + 1].calls, moments[k + 1].confirmed)
  }

  lemma OneMoreTurn(functions: seq<FunctionInfo>, packageOf: string -> Option<string>, providers: seq<Provider>,
      k: nat, moments: seq<Moment>, m: Moment)
    requires k < |providers| && Turns(functions, packageOf, providers[..k], moments)
    requires Share(functions, packageOf, providers[k], moments[k].calls, moments[k].confirmed, m.calls, m.confirmed)
    ensures Turns(functions, packageOf, providers[..k + 1], moments + [m])
  {
    var ps, ms := providers[..k + 1], moments + [m];
    forall i | 0 <= i < k + 1
      ensures TurnAt(functions, packageOf, ps, ms, i)
    {
      assert i < k ==> TurnAt(functions, packageOf, providers[..k], moments, i);
    }
  }

  lemma SettledAsOnce(functions: seq<FunctionInfo>, packageOf: string -> Option<string>, c0: CallSite,
      ans: Option<Answer>, c: CallSite, x: bool, d: CallSite, y: bool)
    requires SettledAs(functions, packageOf, c0, ans, c, x) && SettledAs(functions, packageOf, c0, ans, d, y)
    ensures c == d && x == y
  {
    var t :| SettledTo(functions, packageOf, c0, ans, c, x, t);
    var u :| SettledTo(functions, packageOf, c0, ans, d, y, u);
    if ans.Some? {
      LocatesOnce(functions, ans.value, t, u);
    }
  }

  lemma ShareOnce(functions: seq<FunctionInfo>, packageOf: string -> Option<string>, p: Provider,
      calls0: seq<CallSite>, confirmed0: set<nat>, c: seq<CallSite>, x: set<nat>, d: seq<CallSite>, y: set<nat>)
    requires Share(functions, packageOf, p, calls0, confirmed0, c, x)
    requires Share(functions, packageOf, p, calls0, confirmed0, d, y)
    ensures c == d && x == y
  {
    var answers := AnswersFor(p, CandidateList(calls0, p.handles));
    forall i: nat
      ensures i < |c| ==> c[i] == d[i]
      ensures i in x <==> i in y
    {
      if j :| 0 <= j < |answers| && answers[j].0 == i {
        SettledAsOnce(functions, packageOf, calls0[i], answers[j].1, c[i], i in x, d[i], i in y);
      }
    }
  }

  lemma TurnOnce(functions: seq<FunctionInfo>, packageOf: string -> Option<string>, providers: seq<Provider>,
      a: seq<Moment>, b: seq<Moment>, k: nat)
    requires Turns(functions, packageOf, providers, a) && Turns(functions, packageOf, providers, b)
    requires k < |providers| && a[k] == b[k]
    ensures a[k + 1] == b[k + 1]
  {
    assert TurnAt(functions, packageOf, providers, a, k) && TurnAt(functions, packageOf, providers, b, k);
    ShareOnce(functions, packageOf, providers[k], a[k].calls, a[k].confirmed,
              a[k + 1].calls, a[k + 1].confirmed, b[k + 1].calls, b[k + 1].confirmed);
  }

  /** What a pass leaves behind is determined by the graph and the answers. */
  lemma {:induction false} PassOnce(functions: seq<FunctionInfo>, packageOf: string -> Option<string>,
      providers: seq<Provider>,
      a: seq<Moment>, b: seq<Moment>, k: nat)
    requires Turns(functions, packageOf, providers, a) && Turns(functions, packageOf, providers, b)
    requires a[0] == b[0] && k <= |providers|
    ensures a[k] == b[k]
  {
    if k > 0 {
      PassOnce(functions, packageOf, providers, a, b, k - 1);
      TurnOnce(functions, packageOf, providers, a, b, k - 1);
    }
  }

  function Total(o: Outcome): nat {
    o.confirmed + o.corrected + o.unresolved
  }

  // ---- The books of a pass ----

  /** Confirmed: the callee is the same as before. */
  predicate Kept(c0: CallSite, c: CallSite) {
    CalleeOf(c) == CalleeOf(c0)
  }

  /** Corrected: it is another function, or a package. */
  predicate Changed(c0: CallSite, c: CallSite) {
    CalleeOf(c) != CalleeOf(c0)
  }

  predicate Gone(c0: CallSite, c: CallSite) {
    c.resolution.External?
  }

  /** How many of the settled calls among the first `n` meet `p`, given each before and after. */
  ghost function Tallied(p: (CallSite, CallSite) -> bool, calls0: seq<CallSite>, calls: seq<CallSite>,
      touched: set<nat>, n: nat): nat
    requires n <= |calls0| == |calls|
  {
    if n == 0 then 0
    else
      Tallied(p, calls0, calls, touched, n - 1)
      + (if n - 1 in touched && p(calls0[n - 1], calls[n - 1]) then 1 else 0)
  }

  lemma {:induction false} TalliedStep(p: (CallSite, CallSite) -> bool, calls0: seq<CallSite>,
      calls: seq<CallSite>, touched: set<nat>, n: nat, i: nat, c: CallSite)
    requires n <= |calls0| == |calls| && i < |calls| && i !in touched
    ensures Tallied(p, calls0, calls[i := c], touched + {i}, n)
         == Tallied(p, calls0, calls, touched, n) + (if i < n && p(calls0[i], c) then 1 else 0)
  {
    if n > 0 { TalliedStep(p, calls0, calls, touched, n - 1, i, c); }
  }

  lemma {:induction false} NothingTallied(p: (CallSite, CallSite) -> bool, calls0: seq<CallSite>,
      calls: seq<CallSite>, n: nat)
    requires n <= |calls0| == |calls|
    ensures Tallied(p, calls0, calls, {}, n) == 0
  {
    if n > 0 { NothingTallied(p, calls0, calls, n - 1); }
  }

  /** `touched` are the calls settled by the pass: the others are as they were, these differ in
      their resolution only, and the outcome counts them by what became of them. */
  ghost predicate Accounts(calls0: seq<CallSite>, calls: seq<CallSite>, touched: set<nat>, o: Outcome) {
    && |calls| == |calls0|
    && (forall i :: 0 <= i < |calls| && i !in touched ==> calls[i] == calls0[i])
    && (forall i :: i in touched ==> i < |calls| && calls[i] == Resolved(calls0[i], calls[i].resolution))
    && o.confirmed == Tallied(Kept, calls0, calls, touched, |calls|)
    && o.corrected == Tallied(Changed, calls0, calls, touched, |calls|)
    && o.externalized == Tallied(Gone, calls0, calls, touched, |calls|)
    && CountInternal(calls) + o.externalized == CountInternal(calls0)
    && CountExternal(calls) == CountExternal(calls0) + o.externalized
    && CountUnresolved(calls) == CountUnresolved(calls0)
  }

  lemma NothingDone(calls: seq<CallSite>, confirmed: set<nat>)
    ensures Accounts(calls, calls, confirmed - confirmed, NO_OUTCOME)
  {
    assert confirmed - confirmed == {};
    NothingTallied(Kept, calls, calls, |calls|);
    NothingTallied(Changed, calls, calls, |calls|);
    NothingTallied(Gone, calls, calls, |calls|);
  }

  /** The outcome after one more call, given what became of it. */
  function Tally(o: Outcome, settled: bool, c0: CallSite, c: CallSite): Outcome {
    if !settled then o.(unresolved := o.unresolved + 1)
    else if c.resolution.External? then o.(corrected := o.corrected + 1, externalized := o.externalized + 1)
    else if CalleeOf(c) != CalleeOf(c0) then o.(corrected := o.corrected + 1)
    else o.(confirmed := o.confirmed + 1)
  }

  /** Settling one more call keeps the books. */
  lemma AccountsStep(calls0: seq<CallSite>, calls: seq<CallSite>, touched: set<nat>, o: Outcome, i: nat,
      r: Resolution)
    requires Accounts(calls0, calls, touched, o) && i < |calls| && i !in touched && calls[i].resolution.Internal?
    requires !r.Unresolved?
    ensures var c := Resolved(calls[i], r);
            Accounts(calls0, calls[i := c], touched + {i}, Tally(o, true, calls[i], c))
  {
    var c := Resolved(calls[i], r);
    CountAfter(calls, i, c);
    TalliedStep(Kept, calls0, calls, touched, |calls|, i, c);
    TalliedStep(Changed, calls0, calls, touched, |calls|, i, c);
    TalliedStep(Gone, calls0, calls, touched, |calls|, i, c);
  }

  /** Every settled call is counted once, as confirmed or as corrected. */
  lemma SettledIsCounted(calls0: seq<CallSite>, calls: seq<CallSite>, touched: set<nat>, o: Outcome)
    requires Accounts(calls0, calls, touched, o)
    ensures |touched| == o.confirmed + o.corrected
  {
    CountedUpTo(calls0, calls, touched, |calls|);
    assert (set i | i in touched && i < |calls|) == touched;
  }

  lemma {:induction false} CountedUpTo(calls0: seq<CallSite>, calls: seq<CallSite>, touched: set<nat>, n: nat)
    requires n <= |calls0| == |calls|
    ensures |set i | i in touched && i < n| ==
            Tallied(Kept, calls0, calls, touched, n) + Tallied(Changed, calls0, calls, touched, n)
  {
    if n == 0 {
      assert (set i | i in touched && i < n) == {};
    } else {
      CountedUpTo(calls0, calls, touched, n - 1);
      var below := set i | i in touched && i < n - 1;
      if n - 1 in touched {
        assert (set i | i in touched && i < n) == below + {n - 1};
      } else {
        assert (set i | i in touched && i < n) == below;
      }
    }
  }

  function SaturatingSub(a: nat, b: nat): (r: nat)
    ensures b <= a ==> r + b == a
    ensures a < b ==> r == 0
  {
    if a >= b then a - b else 0
  }

  class Index {
    const graph: GigaGraph
    var stats: Stats

    /** The statistics agree with a recount of the graph. */
    ghost predicate Valid()
      reads this, graph
    {
      && graph.Valid()
      && stats.resolvedInternal == CountInternal(graph.calls)
      && stats.resolvedExternal == CountExternal(graph.calls)
      && stats.unresolved == CountUnresolved(graph.calls)
      && stats.externalPackages == |graph.packageCalls|
    }

    constructor (g: GigaGraph)
      requires g.Valid()
      ensures Valid() && graph == g && !stats.enriched
    {
      graph := g;
      var internal, external, unresolved := 0, 0, 0;
      for k := 0 to |g.calls|
        invariant internal == CountInternal(g.calls[..k]) && external == CountExternal(g.calls[..k])
        invariant unresolved == CountUnresolved(g.calls[..k])
      {
        assert g.calls[..k + 1][..k] == g.calls[..k];
        match g.calls[k].resolution {
          case Internal(_, _, _) => internal := internal + 1;
          case External(_) => external := external + 1;
          case Unresolved => unresolved := unresolved + 1;
        }
      }
      assert g.calls[..|g.calls|] == g.calls;
      stats := Stats(internal, external, unresolved, |g.packageCalls|, 0, 0, false);
    }

    /** The pass over all providers. The reverse indexes stay exact, each call is rewritten at most
        once, what earlier passes settled is not touched, and the adjusted statistics are those of
        a recount. */
    method Enrich(providers: seq<Provider>, packageOf: string -> Option<string>) returns (o: Outcome,
        ghost moments: seq<Moment>)
      requires Valid()
      modifies this`stats, graph
      ensures Valid() && stats.enriched
      ensures stats.confirmedCalls == o.confirmed && stats.correctedCalls == o.corrected
      ensures graph.Progress(old(graph.calls), old(graph.lspConfirmed), old(graph.packageCalls), o)
      ensures |graph.lspConfirmed| == |old(graph.lspConfirmed)| + o.confirmed + o.corrected
      ensures Turns(graph.functions, packageOf, providers, moments)
      ensures moments[0] == old(graph.Now()) && moments[|providers|] == graph.Now()
    {
      o, moments := graph.EnrichAll(providers, packageOf);
      SettledIsCounted(old(graph.calls), graph.calls, graph.lspConfirmed - old(graph.lspConfirmed), o);
      assert graph.lspConfirmed == old(graph.lspConfirmed) + (graph.lspConfirmed - old(graph.lspConfirmed));
      stats := stats.(enriched := true, confirmedCalls := o.confirmed, correctedCalls := o.corrected);
      if o.externalized > 0 {
        stats := stats.(
          resolvedInternal := SaturatingSub(stats.resolvedInternal, o.externalized),
          resolvedExternal := stats.resolvedExternal + o.externalized,
          externalPackages := |graph.packageCalls|);
      }
    }
  }
}
