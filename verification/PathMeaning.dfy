/** What joining and normalising paths give, said in characters: where the slashes are, which segments
    become "{*}", which letters become small, and that nothing of the rest of the input (white space,
    scheme, host, query, fragment) leaves a trace. Every input is covered. */
module PathMeaning {
  import opened Common
  import opened Slashes
  import opened Paths
  import opened NormalForm

  // ---- Joining ----

  ghost predicate OnlySlashes(s: string) {
    forall c :: c in s ==> c == '/'
  }

  /** The slashes around the prefix and in front of the rest give way to one in front and one between. */
  lemma JoinMeaning(l: string, p: string, r: string, m: string, s: string)
    requires OnlySlashes(l) && OnlySlashes(r) && OnlySlashes(m)
    requires p != "" ==> p[0] != '/' && p[|p| - 1] != '/'
    requires s != "" ==> s[0] != '/'
    ensures JoinPrefix(l + p + r, m + s) == if p != "" && s != "" then "/" + p + "/" + s else "/" + p + s
  {
    if p == "" {
      assert l + p + r == (l + r) + "";
      SlashesInFront(l + r, "");
    } else {
      assert l + p + r == l + (p + r);
      SlashesInFront(l, p + r);
      SlashesBehind(p, r);
    }
    SlashesInFront(m, s);
    JoinIsGlue(l + p + r, m + s);
    assert "/" + p + "/" + s == "/" + (p + "/" + s) && "/" + p + s == "/" + (p + s);
    assert p + "" == p && "" + s == s;
  }

  lemma {:induction false} SlashesInFront(x: string, y: string)
    requires OnlySlashes(x) && (y != "" ==> y[0] != '/')
    ensures TrimStart(x + y) == y
  {
    if x == "" {
      assert x + y == y;
    } else {
      assert x[0] in x && forall c :: c in x[1..] ==> c in x;
      assert (x + y)[1..] == x[1..] + y;
      SlashesInFront(x[1..], y);
    }
  }

  lemma {:induction false} SlashesBehind(x: string, y: string)
    requires OnlySlashes(y) && (x != "" ==> x[|x| - 1] != '/')
    ensures TrimEnd(x + y) == x
  {
    if y == "" {
      assert x + y == x;
    } else {
      var f := y[..|y| - 1];
      assert y[|y| - 1] in y && forall c :: c in f ==> c in y;
      assert (x + y)[..|x + y| - 1] == x + f;
      SlashesBehind(x, f);
    }
  }

  // ---- What normalising is asked for ----

  ghost predicate Blank(s: string) {
    forall c :: c in s ==> c in " \t\n\r\U{0B}\U{0C}"
  }

  /** A parameter, whatever the framework that wrote it. */
  ghost predicate Variable(seg: string) {
    seg != "" && (seg[0] in ":<*$" || '{' in seg)
  }

  /** What becomes of one segment. */
  ghost predicate Folded(raw: string, seg: string) {
    && (Variable(raw) <==> seg == "{*}")
    && (!Variable(raw) ==> |seg| == |raw| && forall j :: 0 <= j < |raw| ==> seg[j] == Small(raw[j]))
  }

  function Small(c: char): char {
    if c in "ABCDEFGHIJKLMNOPQRSTUVWXYZ" then (c as int - 'A' as int + 'a' as int) as char else c
  }

  /** One slash in front of every segment, and no other. */
  ghost predicate SingleSlashes(n: string) {
    && n != "" && n[0] == '/'
    && (forall i :: 0 <= i && i + 1 < |n| && n[i] == '/' ==> n[i + 1] != '/')
    && (|n| > 1 ==> n[|n| - 1] != '/')
  }

  /** `n` is the path of the segments of `body`, each folded. */
  ghost predicate IsNormal(body: string, n: string) {
    && SingleSlashes(n)
    && |Segs(n)| == |Segs(body)|
    && forall i :: 0 <= i < |Segs(body)| ==> Folded(Segs(body)[i], Segs(n)[i])
  }

  /** `front` is a scheme and a host, or nothing when there is no scheme. */
  ghost predicate Front(front: string, rest: string) {
    || (front == "" && NoScheme(rest))
    || (exists scheme, host :: SchemeAndHost(front, scheme, host) && (rest == "" || rest[0] == '/'))
  }

  ghost predicate SchemeAndHost(front: string, scheme: string, host: string) {
    front == scheme + "://" + host && NoScheme(scheme) && '/' !in host
  }

  /** `tail` is the query or fragment: it starts at the first mark, which does not open a Ruby
      interpolation. */
  ghost predicate Tail(body: string, tail: string) {
    if tail == "" then
      forall i :: 0 <= i < |body| && body[i] in "?#" && (forall j :: 0 <= j < i ==> body[j] !in "?#") ==>
        i + 1 < |body| && body[i] == '#' && body[i + 1] == '{'
    else
      && tail[0] in "?#" && !(|tail| > 1 && tail[0] == '#' && tail[1] == '{')
      && forall c :: c in body ==> c !in "?#"
  }

  ghost predicate Unpadded(p: string) {
    p != "" && !Blank([p[0]]) && !Blank([p[|p| - 1]])
  }

  // ---- Stripping ----

  lemma BlankSpace(c: char)
    ensures Blank([c]) <==> IsSpace(c)
  {
    assert c in [c];
  }

  lemma {:induction false} StripBlankStart(x: string, y: string)
    requires Blank(x) && (y != "" ==> !IsSpace(y[0]))
    ensures StripStart(x + y) == y
  {
    if x == "" {
      assert x + y == y;
    } else {
      assert x[0] in x && (x + y)[1..] == x[1..] + y;
      StripBlankStart(x[1..], y);
    }
  }

  lemma {:induction false} StripBlankEnd(x: string, y: string)
    requires Blank(y) && !EndsInSpace(x)
    ensures StripEnd(x + y) == x
  {
    if y == "" {
      assert x + y == x;
    } else {
      var f := y[..|y| - 1];
      assert y[|y| - 1] in y && (x + y)[..|x + y| - 1] == x + f;
      StripBlankEnd(x, f);
    }
  }

  lemma StripBlanks(x: string, p: string, y: string)
    requires Blank(x) && Blank(y) && Unpadded(p)
    ensures Stripped(x + p + y) == p
  {
    BlankSpace(p[0]);
    BlankSpace(p[|p| - 1]);
    assert x + p + y == x + (p + y);
    StripBlankStart(x, p + y);
    StripBlankEnd(p, y);
  }

  /** There is no normal form exactly when there is nothing but white space. */
  lemma {:induction false} NothingToNormalize(raw: string)
    ensures NormalizePath(raw) == None <==> Blank(raw)
  {
    if Blank(raw) {
      assert raw + "" == raw;
      StripBlankStart(raw, "");
    } else {
      NotBlank(raw);
    }
  }

  lemma {:induction false} NotBlank(raw: string)
    requires !Blank(raw)
    ensures StripStart(raw) != "" && StripEnd(StripStart(raw)) != ""
  {
    if IsSpace(raw[0]) {
      assert forall c :: c in raw ==> c == raw[0] || c in raw[1..];
      NotBlank(raw[1..]);
    } else {
      StripEndAfter([raw[0]], raw[1..]);
      assert [raw[0]] + raw[1..] == raw;
    }
  }

  // ---- Scheme and host ----

  lemma {:induction false} SchemeFound(scheme: string, rest: string)
    requires NoScheme(scheme)
    ensures AfterScheme(scheme + "://" + rest) == Some(rest)
  {
    var s := scheme + "://" + rest;
    if scheme == "" {
      assert s == "://" + rest;
    } else {
      var t := scheme[1..];
      NoSchemePart(scheme, 1, |scheme|);
      SchemeFound(t, rest);
      assert s[1..] == t + "://" + rest;
      assert s[..3] != "://" by {
        assert s[..3][0] == s[0] && s[..3][1] == s[1] && s[..3][2] == s[2];
        assert s[0] == scheme[0] && s[|scheme|] == ':';
      }
    }
  }

  lemma {:induction false} FromSlashSkips(host: string, rest: string)
    requires '/' !in host && (rest == "" || rest[0] == '/')
    ensures FromSlash(host + rest) == if rest == "" then "/" else rest
  {
    if host == "" {
      assert host + rest == rest;
    } else {
      assert host[0] in host && (host + rest)[1..] == host[1..] + rest;
      FromSlashSkips(host[1..], rest);
    }
  }

  lemma LocalPart(front: string, rest: string)
    requires Front(front, rest)
    ensures Local(front + rest) == if front != "" && rest == "" then "/" else rest
  {
    if front == "" && NoScheme(rest) {
      assert front + rest == rest;
      NoSchemeIsNone(rest);
    } else {
      var scheme, host :| SchemeAndHost(front, scheme, host) && (rest == "" || rest[0] == '/');
      assert front + rest == scheme + "://" + (host + rest);
      SchemeFound(scheme, host + rest);
      FromSlashSkips(host, rest);
    }
  }

  // ---- Query and fragment ----

  lemma {:induction false} MarkFound(body: string, tail: string)
    requires (forall c :: c in body ==> c !in "?#") && (tail == "" || tail[0] in "?#")
    ensures FirstMark(body + tail) == tail && BeforeMark(body + tail) == body
  {
    if body == "" {
      assert body + tail == tail;
    } else {
      assert body[0] in body && (body + tail)[1..] == body[1..] + tail;
      MarkFound(body[1..], tail);
    }
  }

  lemma Opening(s: string)
    ensures "#{" <= s <==> |s| > 1 && s[0] == '#' && s[1] == '{'
  {
  }

  /** A string up to its first mark, and the rest. */
  lemma {:induction false} AtFirstMark(s: string) returns (body: string, tail: string)
    ensures s == body + tail
    ensures (forall c :: c in body ==> c !in "?#") && (tail == "" || tail[0] in "?#")
  {
    if s == "" || s[0] in "?#" {
      body, tail := "", s;
    } else {
      body, tail := AtFirstMark(s[1..]);
      body := [s[0]] + body;
    }
  }

  lemma CutPart(body: string, tail: string)
    requires Tail(body, tail)
    ensures Cut(body + tail) == body
  {
    if tail != "" {
      MarkFound(body, tail);
      Opening(tail);
    } else {
      assert body + tail == body;
      var x, y := AtFirstMark(body);
      MarkFound(x, y);
      Opening(y);
      if y != "" {
        assert body[|x|] == y[0] && forall j :: 0 <= j < |x| ==> body[j] == x[j] && x[j] in x;
        assert |x| + 1 < |body| && body[|x| + 1] == y[1];
      } else {
        assert x == body;
      }
    }
  }

  // ---- The segments ----

  lemma FoldedCanon(raw: string)
    ensures Folded(raw, Canon(raw))
  {
    LoweredChars(raw);
    assert IsParam(raw) <==> Variable(raw);
    if !IsParam(raw) {
      forall j | 0 <= j < |raw|
        ensures Lower(raw[j]) == Small(raw[j])
      {
        Capitals(raw[j]);
      }
    }
  }

  lemma {:induction false} FoldedCanons(segs: seq<string>)
    ensures |Canons(segs)| == |segs|
    ensures forall i :: 0 <= i < |segs| ==> Folded(segs[i], Canons(segs)[i])
  {
    if segs != [] {
      FoldedCanons(segs[1..]);
      FoldedCanon(segs[0]);
    }
  }

  lemma RenderedSlashes(segs: seq<string>)
    requires AllCanonical(segs)
    ensures SingleSlashes(Render(segs))
  {
    RenderSpaced(segs);
    var n := Render(segs);
    forall i | 0 <= i && i + 1 < |n| && n[i] == '/'
      ensures n[i + 1] != '/'
    {
      assert n[i + 1 - 1] == '/';
    }
    if segs != [] {
      var front, last := segs[..|segs| - 1], segs[|segs| - 1];
      assert segs == front + [last];
      CanonicalSplit(front, last);
      RenderLast(front, last);
      assert n[|n| - 1] == last[|last| - 1];
    }
  }

  /** Padding, scheme, host, query and fragment leave no trace. */
  lemma OnlyBodyCounts(blank: string, front: string, body: string, tail: string, after: string)
    requires Blank(blank) && Blank(after) && Unpadded(front + body + tail)
    requires Front(front, body + tail) && Tail(body, tail)
    ensures RawSegs(blank + front + body + tail + after) == Segs(body)
    ensures NormalizePath(blank + front + body + tail + after) == Some(Render(Canons(Segs(body))))
  {
    var p, raw := front + body + tail, blank + front + body + tail + after;
    assert raw == blank + p + after && p == front + (body + tail);
    StripBlanks(blank, p, after);
    LocalPart(front, body + tail);
    CutPart(body, tail);
    if front != "" && body + tail == "" {
      LonelySlash();
    }
  }

  lemma LonelySlash()
    ensures Segs(Cut("/")) == Segs("")
  {
    CutPart("/", "");
    assert "/" + "" == "/";
    SegsAfterSlash("");
  }

  /** A path, however it is padded, and whatever scheme, host, query or fragment it comes with, is
      normalised to its segments, folded one by one. */
  lemma NormalizeMeaning(blank: string, front: string, body: string, tail: string, after: string)
    requires Blank(blank) && Blank(after) && Unpadded(front + body + tail)
    requires Front(front, body + tail) && Tail(body, tail)
    ensures var n := NormalizePath(blank + front + body + tail + after); n.Some? && IsNormal(body, n.value)
  {
    OnlyBodyCounts(blank, front, body, tail, after);
    NormalizedShape(blank + front + body + tail + after);
    FoldedCanons(Segs(body));
    RenderedSlashes(Canons(Segs(body)));
  }

  // ---- Every input has these parts ----

  lemma {:induction false} FindScheme(p: string) returns (scheme: string, rest: string)
    requires !NoScheme(p)
    ensures p == scheme + "://" + rest && NoScheme(scheme)
  {
    if |p| >= 3 && p[..3] == "://" {
      scheme, rest := "", p[3..];
    } else {
      LaterScheme(p);
      scheme, rest := FindScheme(p[1..]);
      InFront(p[0], scheme, rest);
      assert p == [p[0]] + p[1..];
      LongerScheme(p[0], scheme, rest);
      scheme := [p[0]] + scheme;
    }
  }

  lemma InFront(c: char, scheme: string, rest: string)
    ensures [c] + (scheme + "://" + rest) == [c] + scheme + "://" + rest
  {
  }

  lemma LaterScheme(p: string)
    requires !NoScheme(p) && !(|p| >= 3 && p[..3] == "://")
    ensures !NoScheme(p[1..])
  {
    var i :| 0 <= i && i + 2 < |p| && p[i] == ':' && p[i + 1] == '/' && p[i + 2] == '/';
    assert p[..3] == [p[0], p[1], p[2]];
    assert p[1..][i - 1] == ':' && p[1..][i] == '/' && p[1..][i + 1] == '/';
  }

  lemma LongerScheme(c: char, scheme: string, rest: string)
    requires NoScheme(scheme) && ([c] + scheme + "://" + rest)[..3] != "://"
    ensures NoScheme([c] + scheme)
  {
    var s, p := [c] + scheme, [c] + scheme + "://" + rest;
    forall k | 0 <= k && k + 2 < |s| && s[k] == ':' && s[k + 1] == '/'
      ensures s[k + 2] != '/'
    {
      if k == 0 {
        assert p[..3] == [s[0], s[1], s[2]];
      } else {
        assert scheme[k - 1] == ':' && scheme[k] == '/';
      }
    }
  }

  lemma {:induction false} FindSlash(s: string) returns (host: string, rest: string)
    ensures s == host + rest && '/' !in host && (rest == "" || rest[0] == '/')
  {
    if s == "" || s[0] == '/' {
      host, rest := "", s;
    } else {
      host, rest := FindSlash(s[1..]);
      host := [s[0]] + host;
    }
  }

  lemma {:induction false} Pad(raw: string) returns (blank: string, p: string, after: string)
    requires !Blank(raw)
    ensures raw == blank + p + after && Blank(blank) && Blank(after) && Unpadded(p)
  {
    var first, last := raw[0], raw[|raw| - 1];
    if Blank([first]) {
      assert forall c :: c in raw ==> c == first || c in raw[1..];
      assert first in [first];
      blank, p, after := Pad(raw[1..]);
      blank := [first] + blank;
    } else if Blank([last]) {
      assert raw == raw[..|raw| - 1] + [last];
      assert last in [last];
      blank, p, after := Pad(raw[..|raw| - 1]);
      after := after + [last];
    } else {
      blank, p, after := "", raw, "";
    }
  }

  lemma FindFront(p: string) returns (front: string, rest: string)
    ensures p == front + rest && Front(front, rest)
  {
    if NoScheme(p) {
      front, rest := "", p;
    } else {
      var scheme, more := FindScheme(p);
      var host;
      host, rest := FindSlash(more);
      front := scheme + "://" + host;
      assert SchemeAndHost(front, scheme, host);
    }
  }

  lemma FindTail(rest: string) returns (body: string, tail: string)
    ensures rest == body + tail && Tail(body, tail)
  {
    body, tail := AtFirstMark(rest);
    if |tail| > 1 && tail[0] == '#' && tail[1] == '{' {
      assert forall j :: 0 <= j < |body| ==> rest[j] == body[j] && body[j] in body;
      assert rest[|body|] == '#' && rest[|body| + 1] == '{';
      body, tail := rest, "";
    } else if tail == "" {
      assert forall j :: 0 <= j < |body| ==> body[j] in body;
    }
  }

  /** Every path that is not blank has the parts that `NormalizeMeaning` speaks of. */
  lemma EveryPathHasParts(raw: string)
    returns (blank: string, front: string, body: string, tail: string, after: string)
    requires !Blank(raw)
    ensures raw == blank + front + body + tail + after
    ensures Blank(blank) && Blank(after) && Unpadded(front + body + tail)
    ensures Front(front, body + tail) && Tail(body, tail)
  {
    var p, rest;
    blank, p, after := Pad(raw);
    front, rest := FindFront(p);
    body, tail := FindTail(rest);
    FiveParts(blank, front, body, tail, after);
  }

  lemma FiveParts(a: string, b: string, c: string, d: string, e: string)
    ensures a + b + c + d + e == a + (b + (c + d)) + e
    ensures b + c + d == b + (c + d)
  {
  }

  // ---- Query strings ----

  lemma SchemePadded(scheme: string, rest: string)
    requires NoScheme(scheme)
    ensures AfterScheme(Stripped(scheme + "://" + rest)) == Some(StripEnd(rest))
  {
    StripToScheme(scheme, "://" + rest);
    var n := StripStart(scheme);
    assert scheme + "://" + rest == scheme + ("://" + rest);
    assert n + ("://" + rest) == (n + "://") + rest;
    StripEndAfter(n + "://", rest);
    SchemeFound(n, StripEnd(rest));
  }

  lemma {:induction false} StripToScheme(scheme: string, rest: string)
    requires NoScheme(scheme) && rest != "" && !IsSpace(rest[0])
    ensures StripStart(scheme + rest) == StripStart(scheme) + rest && NoScheme(StripStart(scheme))
  {
    if scheme == "" {
      assert scheme + rest == rest;
    } else if IsSpace(scheme[0]) {
      var t := scheme[1..];
      NoSchemePart(scheme, 1, |scheme|);
      StripToScheme(t, rest);
      assert (scheme + rest)[1..] == t + rest;
    }
  }

  lemma SeparateSchemes(p: string, q: string)
    requires NoScheme(p) && NoScheme(q)
    ensures NoScheme(p + "?" + q)
  {
    var s := p + "?" + q;
    forall i | 0 <= i && i + 2 < |s| && s[i] == ':' && s[i + 1] == '/'
      ensures s[i + 2] != '/'
    {
      assert s[|p|] == '?';
      if i + 2 < |p| {
        assert p[i] == ':' && p[i + 1] == '/';
      } else if i > |p| {
        assert q[i - |p| - 1] == ':' && q[i - |p|] == '/';
      }
    }
  }

  lemma SchemeNormalizes(scheme: string, rest: string)
    requires NoScheme(scheme)
    ensures NormalizePath(scheme + "://" + rest) == Some(Render(Canons(Segs(Cut(FromSlash(StripEnd(rest)))))))
  {
    SchemePadded(scheme, rest);
  }

  /** Scheme and host leave no trace. */
  lemma SchemeDrops(scheme: string, host: string, path: string)
    requires NoScheme(scheme) && '/' !in host && path != "" && path[0] == '/' && NoScheme(path)
    ensures NormalizePath(scheme + "://" + host + path) == NormalizePath(path)
  {
    assert scheme + "://" + host + path == scheme + "://" + (host + path);
    SchemeNormalizes(scheme, host + path);
    EndOfPath(host, path);
    FromSlashSkips(host, StripEnd(path));
    SlashedNormalizes(path);
  }

  lemma SlashedNormalizes(path: string)
    requires path != "" && path[0] == '/' && NoScheme(path)
    ensures NormalizePath(path) == Some(Render(Canons(Segs(Cut(StripEnd(path))))))
  {
    EndOfPath("", path);
    NoSchemeIsNone(StripEnd(path));
    assert StripStart(path) == path;
  }

  lemma EndOfPath(host: string, path: string)
    requires path != "" && path[0] == '/' && NoScheme(path)
    ensures StripEnd(host + path) == host + StripEnd(path)
    ensures StripEnd(path) != "" && StripEnd(path)[0] == '/' && NoScheme(StripEnd(path))
  {
    var more := path[1..];
    assert host + path == (host + "/") + more && path == "/" + more;
    StripEndAfter(host + "/", more);
    StripEndAfter("/", more);
    assert host + ("/" + StripEnd(more)) == (host + "/") + StripEnd(more);
    FrontHasNoScheme(path);
  }

  lemma FrontHasNoScheme(path: string)
    requires NoScheme(path)
    ensures NoScheme(StripEnd(path))
  {
    StripEndIsPrefix(path);
    NoSchemePart(path, 0, |StripEnd(path)|);
    assert path[0..|StripEnd(path)|] == StripEnd(path);
  }

  /** A query is dropped when there is no "://" in it. One that has it decides alone: the path in front
      of the question mark is taken for a scheme and leaves no trace. */
  lemma QueryExactly(p: string, q: string)
    requires p != "" && p[0] == '/' && !Blank([p[|p| - 1]]) && NoScheme(p)
    requires forall c :: c in p ==> c !in "?#"
    ensures NormalizePath(p + "?" + q) == NormalizePath(if NoScheme(q) then p else q)
  {
    if NoScheme(q) {
      DroppedQuery(p, q);
    } else {
      var a, rest := FindScheme(q);
      SeparateSchemes(p, a);
      assert p + "?" + q == (p + "?" + a) + "://" + rest;
      SchemeNormalizes(p + "?" + a, rest);
      SchemeNormalizes(a, rest);
    }
  }

  lemma {:induction false} BlankEnd(s: string) returns (after: string)
    ensures s == StripEnd(s) + after && Blank(after) && (StripEnd(s) != "" ==> !EndsInSpace(StripEnd(s)))
  {
    if EndsInSpace(s) {
      after := BlankEnd(s[..|s| - 1]);
      BlankSpace(s[|s| - 1]);
      assert s[|s| - 1] in [s[|s| - 1]];
      after := after + [s[|s| - 1]];
    } else {
      after := "";
    }
  }

  lemma DroppedQuery(p: string, q: string)
    requires p != "" && p[0] == '/' && !Blank([p[|p| - 1]]) && NoScheme(p) && NoScheme(q)
    requires forall c :: c in p ==> c !in "?#"
    ensures NormalizePath(p + "?" + q) == NormalizePath(p)
  {
    var after := BlankEnd(q);
    var tail := "?" + StripEnd(q);
    FrontHasNoScheme(q);
    SeparateSchemes(p, StripEnd(q));
    QueryParts(p, StripEnd(q), after);
    EndOfQuery(p, StripEnd(q));
    MarkFree(p);
    NoFront(p);
    NoFront(p + tail);
    OnlyBodyCounts("", "", p, tail, after);
    OnlyBodyCounts("", "", p, "", "");
  }

  lemma QueryParts(p: string, q: string, after: string)
    ensures "" + "" + p + ("?" + q) + after == p + "?" + (q + after)
    ensures p + ("?" + q) == p + "?" + q
    ensures "" + "" + p + "" + "" == p == p + ""
  {
  }

  lemma NoFront(rest: string)
    requires NoScheme(rest)
    ensures Front("", rest)
  {
  }

  lemma MarkFree(p: string)
    requires forall c :: c in p ==> c !in "?#"
    ensures Tail(p, "")
  {
    assert forall i :: 0 <= i < |p| ==> p[i] in p;
  }

  lemma EndOfQuery(p: string, q: string)
    requires p != "" && p[0] == '/' && !Blank([p[|p| - 1]]) && !EndsInSpace(q)
    ensures Unpadded("" + p + ("?" + q)) && Unpadded("" + p + "")
  {
    var s := "" + p + ("?" + q);
    BlankSpace(s[0]);
    BlankSpace(s[|s| - 1]);
    assert "" + p + "" == p;
  }

  /** So the promise that queries are stripped fails for an address in a query: "/a?u=http://h/b" is
      normalised to "/b", and "/a" to "/a". */
  lemma QueryWins(name: string, host: string)
    requires NoScheme(name) && '/' !in host
    ensures NormalizePath("/a?" + name + "://" + host + "/b") == Some("/b") != NormalizePath("/a")
  {
    ColonFreeStart(name);
    SchemeDrops("/a?" + name, host, "/b");
    Short("a");
    Short("b");
    assert "/" + "a" == "/a" && "/" + "b" == "/b";
    assert "/a"[1] != "/b"[1];
  }

  lemma ColonFreeStart(name: string)
    requires NoScheme(name)
    ensures NoScheme("/a?" + name)
  {
    assert "/a?" + name == "/a" + "?" + name;
    SeparateSchemes("/a", name);
  }

  lemma Short(s: string)
    requires s == "a" || s == "b"
    ensures NormalizePath("/" + s) == Some("/" + s)
  {
    PlainNormalizes("/" + s);
    SegsAfterSlash(s);
    SegsOfWhole(s);
    ShortCanon(s);
  }

  lemma ShortCanon(s: string)
    requires s == "a" || s == "b"
    ensures Render(Canons([s])) == "/" + s
  {
    assert s[1..] == "" && Lowered("") == "" && Lowered(s) == s;
    assert [s][1..] == [];
  }
}
