/** Matching published endpoints with the client calls that reach them. */
module Correlate {
  import opened Common
  import opened Paths
  import opened Slashes

  datatype ApiKind = Http | Soap | XmlRpc | JsonRpc | Grpc | Graphql

  datatype HttpMethod = Get | Post | Put | Delete | Patch | Head | Options | Any

  datatype Endpoint = Endpoint(id: nat, kind: ApiKind, verb: HttpMethod, path: string, confidence: Confidence)
  datatype Client = Client(id: nat, kind: ApiKind, verb: HttpMethod, path: string, confidence: Confidence)
  datatype Match = Match(client: nat, endpoint: nat, confidence: Confidence)

  predicate Compatible(a: HttpMethod, b: HttpMethod) {
    a == b || a == Any || b == Any
  }

  // ---- Unification ----

  predicate Unify(a: seq<string>, b: seq<string>) {
    |a| == |b| && forall i :: 0 <= i < |a| ==> a[i] == b[i] || a[i] == PARAM || b[i] == PARAM
  }

  /** A concrete path fits a template that has the same segment, or a parameter, at every place. */
  ghost predicate Fits(path: seq<string>, template: seq<string>) {
    |path| == |template| &&
    forall i :: 0 <= i < |path| ==> path[i] != "{*}" && (template[i] == "{*}" || template[i] == path[i])
  }

  /** Two templates unify exactly when some concrete path fits both. */
  lemma UnifyMeaning(a: seq<string>, b: seq<string>)
    ensures Unify(a, b) <==> exists path :: Fits(path, a) && Fits(path, b)
  {
    if Unify(a, b) {
      var path := seq(|a|, i requires 0 <= i < |a| =>
        if a[i] != PARAM then a[i] else if b[i] != PARAM then b[i] else "x");
      assert |"x"| != |PARAM|;
      assert Fits(path, a) && Fits(path, b);
    }
    if path :| Fits(path, a) && Fits(path, b) {
      forall i | 0 <= i < |a|
        ensures a[i] == b[i] || a[i] == PARAM || b[i] == PARAM
      {
        assert path[i] != PARAM;
      }
    }
  }

  function Concrete(segs: seq<string>): nat {
    if segs == [] then 0 else (if segs[0] != PARAM then 1 else 0) + Concrete(segs[1..])
  }

  // ---- Which endpoints a client matches ----

  /** Same protocol and operation; for everything but HTTP. */
  predicate SameOperation(e: Endpoint, c: Client) {
    e.kind == c.kind && e.path == c.path
  }

  /** The whole client path and the method agree with the endpoint. */
  predicate Whole(e: Endpoint, c: Client) {
    e.kind == Http && Compatible(e.verb, c.verb) && Unify(Segs(e.path), Segs(c.path))
  }

  /** The client path without its first `strip` segments does; the endpoint is specific enough. */
  predicate Suffix(e: Endpoint, c: Client, strip: nat)
    requires strip <= |Segs(c.path)|
  {
    e.kind == Http && Concrete(Segs(e.path)) >= 2 && Compatible(e.verb, c.verb)
    && Unify(Segs(e.path), Segs(c.path)[strip..])
  }

  function Select(es: seq<Endpoint>, keep: Endpoint -> bool): seq<Endpoint> {
    if es == [] then []
    else
      var n := |es| - 1;
      Select(es[..n], keep) + (if keep(es[n]) then [es[n]] else [])
  }

  lemma {:induction false} SelectMembers(es: seq<Endpoint>, keep: Endpoint -> bool, e: Endpoint)
    ensures e in Select(es, keep) <==> e in es && keep(e)
  {
    if es != [] {
      SelectMembers(es[..|es| - 1], keep, e);
      assert es == es[..|es| - 1] + [es[|es| - 1]];
    }
  }

  function Wholes(es: seq<Endpoint>, c: Client): seq<Endpoint> {
    Select(es, e => Whole(e, c))
  }

  function Hits(es: seq<Endpoint>, c: Client, strip: nat): seq<Endpoint>
    requires strip <= |Segs(c.path)|
  {
    Select(es, e => Suffix(e, c, strip))
  }

  lemma WholesAre(es: seq<Endpoint>, c: Client)
    ensures forall e :: e in Wholes(es, c) <==> e in es && Whole(e, c)
  {
    forall e
      ensures e in Wholes(es, c) <==> e in es && Whole(e, c)
    {
      SelectMembers(es, x => Whole(x, c), e);
    }
  }

  lemma HitsAre(es: seq<Endpoint>, c: Client, strip: nat)
    requires strip <= |Segs(c.path)|
    ensures forall e :: e in Hits(es, c, strip) <==> e in es && Suffix(e, c, strip)
  {
    forall e
      ensures e in Hits(es, c, strip) <==> e in es && Suffix(e, c, strip)
    {
      SelectMembers(es, x => Suffix(x, c, strip), e);
    }
  }

  function FirstHit(es: seq<Endpoint>, c: Client, strip: nat): seq<Endpoint>
    requires strip <= |Segs(c.path)|
    decreases |Segs(c.path)| - strip
  {
    if strip == |Segs(c.path)| then []
    else
      var hits := Hits(es, c, strip);
      if hits != [] then hits else FirstHit(es, c, strip + 1)
  }

  /** The endpoints a client matches, in their own order. */
  function Chosen(es: seq<Endpoint>, c: Client): seq<Endpoint> {
    if c.kind != Http then Select(es, e => SameOperation(e, c))
    else
      var whole := Wholes(es, c);
      if whole != [] then whole
      else if Segs(c.path) == [] then [] else FirstHit(es, c, 1)
  }

  function Rated(es: seq<Endpoint>, c: Client, e: Endpoint): Confidence {
    var unique := |Chosen(es, c)| == 1;
    if !unique || e.confidence != High || c.confidence != High then Heuristic
    else if c.kind != Http then High
    else if !Whole(e, c) || e.verb == Any || c.verb == Any then Heuristic
    else High
  }

  function Emit(es: seq<Endpoint>, c: Client, chosen: seq<Endpoint>): seq<Match> {
    if chosen == [] then []
    else
      var n := |chosen| - 1;
      Emit(es, c, chosen[..n]) + [Match(c.id, chosen[n].id, Rated(es, c, chosen[n]))]
  }

  function MatchesOf(es: seq<Endpoint>, c: Client): seq<Match> {
    Emit(es, c, Chosen(es, c))
  }

  function AllMatches(es: seq<Endpoint>, cs: seq<Client>): seq<Match> {
    if cs == [] then []
    else
      var n := |cs| - 1;
      AllMatches(es, cs[..n]) + MatchesOf(es, cs[n])
  }

  // ---- What is guaranteed ----

  // ---- The choice, by place ----

  lemma {:induction false} SelectPlaces(es: seq<Endpoint>, keep: Endpoint -> bool) returns (places: seq<nat>)
    ensures Picks(es, places, Select(es, keep))
    ensures forall i: nat :: i in places <==> i < |es| && keep(es[i])
  {
    if es == [] {
      places := [];
    } else {
      var n := |es| - 1;
      var front := SelectPlaces(es[..n], keep);
      PicksNext(es[..n], front, Select(es[..n], keep), es[n]);
      assert es == es[..n] + [es[n]];
      places := front + if keep(es[n]) then [n] else [];
      forall i: nat
        ensures i in places <==> i < |es| && keep(es[i])
      {
        assert i in places <==> i in front || (i == n && keep(es[n]));
      }
    }
  }

  lemma {:induction false} ConcreteMeaning(segs: seq<string>)
    ensures Concrete(segs) >= 1 <==> exists i :: 0 <= i < |segs| && segs[i] != "{*}"
    ensures Concrete(segs) >= 2 <==> exists i, j :: 0 <= i < j < |segs| && segs[i] != "{*}" && segs[j] != "{*}"
  {
    if segs != [] {
      var rest := segs[1..];
      ConcreteMeaning(rest);
      assert forall i :: 0 <= i < |rest| ==> rest[i] == segs[i + 1];
      if i :| 0 <= i < |segs| && segs[i] != "{*}" {
        assert i > 0 ==> rest[i - 1] == segs[i];
      }
      if i, j :| 0 <= i < j < |segs| && segs[i] != "{*}" && segs[j] != "{*}" {
        assert rest[j - 1] == segs[j];
        assert i > 0 ==> rest[i - 1] == segs[i];
      }
      if Concrete(rest) >= 1 {
        var i :| 0 <= i < |rest| && rest[i] != "{*}";
        assert segs[i + 1] == rest[i];
      }
    }
  }

  /** Without its first `strip` segments, the client's path and the endpoint's template have a
      concrete path in common; a stripped one needs an endpoint with two segments that are given. */
  ghost predicate Reaches(e: Endpoint, c: Client, strip: nat)
    requires strip <= |Segs(c.path)|
  {
    var segs := Segs(e.path);
    && e.kind == Http
    && (e.verb == c.verb || e.verb == Any || c.verb == Any)
    && (exists path :: Fits(path, segs) && Fits(path, Segs(c.path)[strip..]))
    && (strip > 0 ==> exists i, j :: 0 <= i < j < |segs| && segs[i] != "{*}" && segs[j] != "{*}")
  }

  lemma ReachesMeaning(e: Endpoint, c: Client, strip: nat)
    requires strip <= |Segs(c.path)|
    ensures Reaches(e, c, strip) <==> if strip == 0 then Whole(e, c) else Suffix(e, c, strip)
  {
    UnifyMeaning(Segs(e.path), Segs(c.path)[strip..]);
    ConcreteMeaning(Segs(e.path));
    assert Segs(c.path)[0..] == Segs(c.path);
  }

  /** How many beginnings of the client's path are tried: none, one segment, two, but never all. */
  function Tries(c: Client): nat {
    if Segs(c.path) == [] then 1 else |Segs(c.path)|
  }

  ghost predicate SomeReach(es: seq<Endpoint>, c: Client, strip: nat)
    requires strip <= |Segs(c.path)|
  {
    exists i: nat :: i < |es| && Reaches(es[i], c, strip)
  }

  /** Stripping fewer than `strip` segments reaches nothing. */
  ghost predicate NoneReach(es: seq<Endpoint>, c: Client, strip: nat)
    requires strip <= |Segs(c.path)| + 1
  {
    forall k :: 0 <= k < strip ==> !SomeReach(es, c, k)
  }

  lemma NoneReachNext(es: seq<Endpoint>, c: Client, strip: nat)
    requires strip <= |Segs(c.path)| && NoneReach(es, c, strip) && !SomeReach(es, c, strip)
    ensures NoneReach(es, c, strip + 1)
  {
  }

  lemma ReachedHere(es: seq<Endpoint>, c: Client, places: seq<nat>, strip: nat)
    requires strip < Tries(c) && NoneReach(es, c, strip) && places != []
    requires forall i: nat :: i in places <==> i < |es| && Reaches(es[i], c, strip)
    ensures Reached(es, c, places, strip)
  {
  }

  /** `places` are the endpoints that the client reaches without its first `strip` segments, the
      fewest that do; past the tries there are none. */
  ghost predicate Reached(es: seq<Endpoint>, c: Client, places: seq<nat>, strip: nat) {
    && strip <= Tries(c)
    && NoneReach(es, c, strip)
    && (places == [] <==> strip == Tries(c))
    && (strip < Tries(c) ==> forall i: nat :: i in places <==> i < |es| && Reaches(es[i], c, strip))
  }

  lemma TryPlaces(es: seq<Endpoint>, c: Client, strip: nat) returns (places: seq<nat>)
    requires strip <= |Segs(c.path)|
    ensures Picks(es, places, if strip == 0 then Wholes(es, c) else Hits(es, c, strip))
    ensures forall i: nat :: i in places <==> i < |es| && Reaches(es[i], c, strip)
    ensures places != [] <==> SomeReach(es, c, strip)
  {
    if strip == 0 {
      places := SelectPlaces(es, e => Whole(e, c));
    } else {
      places := SelectPlaces(es, e => Suffix(e, c, strip));
    }
    forall i: nat | i < |es|
      ensures i in places <==> Reaches(es[i], c, strip)
    {
      ReachesMeaning(es[i], c, strip);
    }
    if places != [] {
      assert places[0] in places;
    }
  }

  lemma {:induction false} FirstHitPlaces(es: seq<Endpoint>, c: Client, from: nat)
    returns (places: seq<nat>, strip: nat)
    requires 1 <= from <= |Segs(c.path)|
    requires NoneReach(es, c, from)
    ensures Picks(es, places, FirstHit(es, c, from)) && Reached(es, c, places, strip) && strip > 0
    decreases |Segs(c.path)| - from
  {
    if from == |Segs(c.path)| {
      places, strip := [], from;
    } else {
      strip := from;
      places := TryPlaces(es, c, from);
      if places == [] {
        NoneReachNext(es, c, from);
        places, strip := FirstHitPlaces(es, c, from + 1);
      } else {
        ReachedHere(es, c, places, from);
      }
    }
  }

  /** The endpoints an HTTP client gets, by their places: those it reaches with its whole path if
      there are any, else those it reaches after stripping as few segments as needed. */
  lemma HttpMatches(es: seq<Endpoint>, c: Client) returns (places: seq<nat>, strip: nat)
    requires c.kind == Http
    ensures Picks(es, places, Chosen(es, c)) && Reached(es, c, places, strip)
  {
    strip := 0;
    places := TryPlaces(es, c, 0);
    if places == [] {
      if Segs(c.path) == [] {
        strip := 1;
      } else {
        places, strip := FirstHitPlaces(es, c, 1);
      }
    }
  }

  /** Other clients get the endpoints of their protocol with the same operation. */
  lemma RpcMatches(es: seq<Endpoint>, c: Client) returns (places: seq<nat>)
    requires c.kind != Http
    ensures Picks(es, places, Chosen(es, c))
    ensures forall i: nat :: i in places <==> i < |es| && es[i].kind == c.kind && es[i].path == c.path
  {
    places := SelectPlaces(es, e => SameOperation(e, c));
  }

  /** One match per chosen endpoint, in order. It is High exactly when it is the only one, both sides
      were detected with High confidence, and for HTTP nothing was stripped and both methods are given. */
  lemma MatchesMeaning(es: seq<Endpoint>, c: Client) returns (places: seq<nat>, strip: nat)
    ensures Picks(es, places, Chosen(es, c)) && (c.kind == Http ==> Reached(es, c, places, strip))
    ensures |MatchesOf(es, c)| == |places|
    ensures forall k :: 0 <= k < |places| ==>
              var e, m := es[places[k]], MatchesOf(es, c)[k];
              && m.client == c.id && m.endpoint == e.id
              && (m.confidence == High <==>
                    |places| == 1 && e.confidence == High && c.confidence == High
                    && (c.kind == Http ==> strip == 0 && e.verb != Any && c.verb != Any))
  {
    if c.kind == Http {
      places, strip := HttpMatches(es, c);
    } else {
      places := RpcMatches(es, c);
      strip := 0;
    }
    EmitAt(es, c, Chosen(es, c));
    forall k | 0 <= k < |places| && c.kind == Http
      ensures Whole(es[places[k]], c) <==> strip == 0
    {
      assert places[k] in places;
      ReachesMeaning(es[places[k]], c, 0);
    }
  }

  /** The matches of all clients are those of each, one client after the other. */
  lemma MatchesNext(es: seq<Endpoint>, cs: seq<Client>, c: Client)
    ensures AllMatches(es, cs + [c]) == AllMatches(es, cs) + MatchesOf(es, c)
    ensures AllMatches(es, []) == []
  {
    assert (cs + [c])[..|cs|] == cs;
  }

  lemma {:induction false} EmitAt(es: seq<Endpoint>, c: Client, chosen: seq<Endpoint>)
    ensures |Emit(es, c, chosen)| == |chosen|
    ensures forall i :: 0 <= i < |chosen| ==>
              Emit(es, c, chosen)[i] == Match(c.id, chosen[i].id, Rated(es, c, chosen[i]))
  {
    if chosen != [] { EmitAt(es, c, chosen[..|chosen| - 1]); }
  }

  /** A High match is the client's only match: both sides were detected with High confidence and,
      for HTTP, the whole path and a definite method agree. */
  lemma HighMatchIsOnly(es: seq<Endpoint>, c: Client, m: Match)
    requires m in MatchesOf(es, c) && m.confidence == High
    ensures MatchesOf(es, c) == [m]
    ensures exists e :: e in es && e.id == m.endpoint && e.confidence == High && c.confidence == High
              && (if c.kind == Http then Whole(e, c) && e.verb == c.verb && e.verb != Any else SameOperation(e, c))
  {
    var chosen := Chosen(es, c);
    EmitAt(es, c, chosen);
    var i :| 0 <= i < |chosen| && MatchesOf(es, c)[i] == m;
    var e := chosen[i];
    assert Rated(es, c, e) == High;
    ChosenArePublished(es, c, e);
    if c.kind != Http {
      SelectMembers(es, x => SameOperation(x, c), e);
    }
  }

  /** A client has a High match exactly when one endpoint alone was chosen, both sides are High, and
      for HTTP the whole path and a definite method agree. */
  lemma HighMatchExactly(es: seq<Endpoint>, c: Client)
    ensures (exists m :: m in MatchesOf(es, c) && m.confidence == High) <==>
            exists e :: Chosen(es, c) == [e] && e.confidence == High && c.confidence == High
              && (c.kind == Http ==> Whole(e, c) && e.verb == c.verb && e.verb != Any)
  {
    var chosen := Chosen(es, c);
    EmitAt(es, c, chosen);
    if m :| m in MatchesOf(es, c) && m.confidence == High {
      var i :| 0 <= i < |chosen| && MatchesOf(es, c)[i] == m;
      assert chosen == [chosen[i]];
    }
    if e :| Chosen(es, c) == [e] && e.confidence == High && c.confidence == High
              && (c.kind == Http ==> Whole(e, c) && e.verb == c.verb && e.verb != Any) {
      assert MatchesOf(es, c)[0] == Match(c.id, e.id, High);
    }
  }

  lemma ChosenArePublished(es: seq<Endpoint>, c: Client, e: Endpoint)
    requires e in Chosen(es, c)
    ensures e in es
  {
    if c.kind != Http {
      SelectMembers(es, x => SameOperation(x, c), e);
    } else {
      WholesAre(es, c);
      if e !in Wholes(es, c) {
        FirstHitPublished(es, c, e, 1);
      }
    }
  }

  lemma {:induction false} FirstHitPublished(es: seq<Endpoint>, c: Client, e: Endpoint, from: nat)
    requires from <= |Segs(c.path)| && e in FirstHit(es, c, from)
    ensures e in es
    decreases |Segs(c.path)| - from
  {
    HitsAre(es, c, from);
    if Hits(es, c, from) == [] {
      FirstHitPublished(es, c, e, from + 1);
    }
  }

  // ---- The loops ----

  class EndpointIndex {
    var endpoints: seq<Endpoint>
    var clients: seq<Client>
    var matches: seq<Match>

    constructor (es: seq<Endpoint>, cs: seq<Client>)
      ensures endpoints == es && clients == cs && matches == AllMatches(es, cs)
    {
      endpoints, clients, matches := es, cs, [];
      new;
      Recorrelate();
    }

    /** After endpoints were appended: the matches are those of the endpoints there are now. */
    method Recorrelate()
      modifies this`matches
      ensures matches == AllMatches(endpoints, clients)
    {
      matches := CorrelateAll(endpoints, clients);
    }
  }

  method Filter(es: seq<Endpoint>, keep: Endpoint -> bool) returns (hits: seq<Endpoint>)
    ensures hits == Select(es, keep)
  {
    hits := [];
    for i := 0 to |es|
      invariant hits == Select(es[..i], keep)
    {
      assert es[..i + 1][..i] == es[..i];
      if keep(es[i]) {
        hits := hits + [es[i]];
      }
    }
    assert es[..|es|] == es;
  }

  /** Protocols other than HTTP: by operation. */
  method CorrelateRpc(es: seq<Endpoint>, c: Client) returns (matched: seq<Match>)
    requires c.kind != Http
    ensures matched == MatchesOf(es, c)
  {
    matched := [];
    var hits := Filter(es, e => SameOperation(e, c));
    var unique := |hits| == 1;
    for i := 0 to |hits|
      invariant matched == Emit(es, c, hits[..i])
    {
      var e := hits[i];
      assert hits[..i + 1][..i] == hits[..i];
      var conf := if unique && e.confidence == High && c.confidence == High then High else Heuristic;
      matched := matched + [Match(c.id, e.id, conf)];
    }
    assert hits[..|hits|] == hits;
  }

  method EmitWhole(es: seq<Endpoint>, c: Client, whole: seq<Endpoint>) returns (matched: seq<Match>)
    requires c.kind == Http && whole != [] && whole == Wholes(es, c)
    ensures matched == MatchesOf(es, c)
  {
    matched := [];
    var unique := |whole| == 1;
    for i := 0 to |whole|
      invariant matched == Emit(es, c, whole[..i])
    {
      var e := whole[i];
      WholesAre(es, c);
      assert whole[..i + 1][..i] == whole[..i];
      var anyVerb := e.verb == Any || c.verb == Any;
      var conf := if unique && !anyVerb && e.confidence == High && c.confidence == High then High else Heuristic;
      matched := matched + [Match(c.id, e.id, conf)];
    }
    assert whole[..|whole|] == whole;
  }

  method EmitSuffix(es: seq<Endpoint>, c: Client, hits: seq<Endpoint>, strip: nat) returns (matched: seq<Match>)
    requires c.kind == Http && strip < |Segs(c.path)| && hits == Hits(es, c, strip)
    requires Wholes(es, c) == []
    ensures matched == Emit(es, c, hits)
  {
    matched := [];
    for i := 0 to |hits|
      invariant matched == Emit(es, c, hits[..i])
    {
      assert hits[..i + 1][..i] == hits[..i];
      NotWhole(es, c, hits[i], strip);
      matched := matched + [Match(c.id, hits[i].id, Heuristic)];
    }
    assert hits[..|hits|] == hits;
  }

  method CorrelateOne(es: seq<Endpoint>, c: Client) returns (matched: seq<Match>)
    ensures matched == MatchesOf(es, c)
  {
    if c.kind != Http {
      matched := CorrelateRpc(es, c);
      return;
    }
    var whole := Filter(es, e => Whole(e, c));
    if whole != [] {
      matched := EmitWhole(es, c, whole);
      return;
    }
    var segs := Segs(c.path);
    var strip := 1;
    while strip < |segs|
      invariant segs == [] || strip <= |segs|
      invariant segs != [] ==> Chosen(es, c) == FirstHit(es, c, strip)
    {
      var hits := Filter(es, e => Suffix(e, c, strip));
      if hits != [] {
        matched := EmitSuffix(es, c, hits, strip);
        return;
      }
      strip := strip + 1;
    }
    matched := [];
  }

  lemma NotWhole(es: seq<Endpoint>, c: Client, e: Endpoint, strip: nat)
    requires c.kind == Http && strip < |Segs(c.path)|
    requires Wholes(es, c) == [] && e in Hits(es, c, strip)
    ensures Rated(es, c, e) == Heuristic
  {
    HitsAre(es, c, strip);
    WholesAre(es, c);
  }

  method CorrelateAll(es: seq<Endpoint>, cs: seq<Client>) returns (matched: seq<Match>)
    ensures matched == AllMatches(es, cs)
  {
    matched := [];
    for i := 0 to |cs|
      invariant matched == AllMatches(es, cs[..i])
    {
      assert cs[..i + 1][..i] == cs[..i];
      var more := CorrelateOne(es, cs[i]);
      matched := matched + more;
    }
    assert cs[..|cs|] == cs;
  }
}
