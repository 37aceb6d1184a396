/** Route paths: joining a mount prefix to a path, and the canonical form in which routes and client
    URLs are compared (on ASCII). */
module Paths {
  import opened Common
  import opened Slashes

  // ---- Joining ----

  /** `prefix` loses its slashes at both ends, `sub` the ones in front. */
  function JoinPrefix(prefix: string, sub: string): string {
    var p := TrimEnd(TrimStart(prefix));
    var s := TrimStart(sub);
    if p == "" && s == "" then "/"
    else if p == "" then "/" + s
    else if s == "" then "/" + p
    else "/" + p + "/" + s
  }

  /** Two trimmed parts with a slash between them. */
  function Glue(p: string, s: string): string {
    if p == "" then s else if s == "" then p else p + "/" + s
  }

  function Core(s: string): string {
    TrimEnd(TrimStart(s))
  }

  lemma JoinIsGlue(a: string, b: string)
    ensures JoinPrefix(a, b) == "/" + Glue(Core(a), TrimStart(b))
  {
    var p, s := Core(a), TrimStart(b);
    if p != "" && s != "" {
      assert "/" + p + "/" + s == "/" + (p + "/" + s);
    } else {
      assert "/" + "" == "/";
    }
  }

  /** What a joined path looks like to a further join, from the right and from the left. */
  lemma JoinParts(a: string, b: string)
    ensures TrimStart(JoinPrefix(a, b)) == Glue(Core(a), TrimStart(b))
    ensures Core(JoinPrefix(a, b)) == Glue(Core(a), Core(b))
  {
    JoinIsGlue(a, b);
    CoreShape(a);
    TrimStartShape(b);
    GlueParts(Core(a), TrimStart(b));
  }

  lemma CoreShape(a: string)
    ensures Core(a) != "" ==> Core(a)[0] != '/' && Core(a)[|Core(a)| - 1] != '/'
  {
    TrimStartShape(a);
    TrimEndShape(TrimStart(a));
  }

  lemma GlueParts(p: string, s: string)
    requires p != "" ==> p[0] != '/' && p[|p| - 1] != '/'
    requires s != "" ==> s[0] != '/'
    ensures TrimStart("/" + Glue(p, s)) == Glue(p, s)
    ensures TrimEnd(Glue(p, s)) == Glue(p, TrimEnd(s))
  {
    var g := Glue(p, s);
    assert ("/" + g)[1..] == g;
    assert g != "" ==> g[0] == (if p == "" then s[0] else p[0]);
    TrimStartShape(g);
    TrimEndShape(p);
    TrimEndShape(s);
    if p != "" && s != "" {
      TrimEndAfter(p + "/", s);
    }
  }

  /** Mounting in two steps is mounting at the joined prefix. */
  lemma JoinAssociative(a: string, b: string, c: string)
    ensures JoinPrefix(JoinPrefix(a, b), c) == JoinPrefix(a, JoinPrefix(b, c))
  {
    JoinParts(a, b);
    JoinParts(b, c);
    JoinIsGlue(JoinPrefix(a, b), c);
    JoinIsGlue(a, JoinPrefix(b, c));
  }

  /** Joining paths concatenates their segments. */
  lemma SegsOfJoin(a: string, b: string)
    ensures Segs(JoinPrefix(a, b)) == Segs(a) + Segs(b)
  {
    var p, s := Core(a), TrimStart(b);
    JoinIsGlue(a, b);
    SegsOfTrimStart(a);
    SegsOfTrimEnd(TrimStart(a));
    SegsOfTrimStart(b);
    SegsOfNothing();
    assert "/" + Glue(p, s) == "" + "/" + Glue(p, s);
    SegsAtSlash("", Glue(p, s));
    if p != "" && s != "" {
      SegsAtSlash(p, s);
    }
  }

  // ---- Canonical form ----

  predicate IsSpace(c: char) {
    c == ' ' || c == '\t' || c == '\n' || c == '\r' || c == '\U{0B}' || c == '\U{0C}'
  }

  function StripStart(s: string): string {
    if s != "" && IsSpace(s[0]) then StripStart(s[1..]) else s
  }

  function StripEnd(s: string): string {
    if s != "" && IsSpace(s[|s| - 1]) then StripEnd(s[..|s| - 1]) else s
  }

  /** What follows the first "://". */
  function AfterScheme(s: string): Option<string> {
    if |s| < 3 then None else if s[..3] == "://" then Some(s[3..]) else AfterScheme(s[1..])
  }

  function FromSlash(s: string): string {
    if s == "" then "/" else if s[0] == '/' then s else FromSlash(s[1..])
  }

  predicate IsMark(c: char) {
    c == '?' || c == '#'
  }

  function FirstMark(s: string): string {
    if s == "" || IsMark(s[0]) then s else FirstMark(s[1..])
  }

  function BeforeMark(s: string): string {
    if s == "" || IsMark(s[0]) then "" else [s[0]] + BeforeMark(s[1..])
  }

  /** Query and fragment off; a first mark that opens a Ruby interpolation keeps everything. */
  function Cut(s: string): string {
    if "#{" <= FirstMark(s) then s else BeforeMark(s)
  }

  function Lower(c: char): char {
    if 'A' <= c <= 'Z' then (c as int + 32) as char else c
  }

  function Lowered(s: string): string {
    if s == "" then "" else [Lower(s[0])] + Lowered(s[1..])
  }

  const PARAM: string := "{*}"

  predicate IsParam(seg: string) {
    seg != "" && (seg[0] == ':' || seg[0] == '<' || seg[0] == '*' || seg[0] == '$' || '{' in seg)
  }

  function Canon(seg: string): string {
    if IsParam(seg) then PARAM else Lowered(seg)
  }

  function Canons(segs: seq<string>): seq<string> {
    if segs == [] then [] else [Canon(segs[0])] + Canons(segs[1..])
  }

  /** "/" and the segments with "/" between them. */
  function Render(segs: seq<string>): string {
    if segs == [] then "/" else if |segs| == 1 then "/" + segs[0] else "/" + segs[0] + Render(segs[1..])
  }

  function Local(s: string): string {
    match AfterScheme(s)
    case None => s
    case Some(after) => FromSlash(after)
  }

  function NormalizePath(raw: string): Option<string> {
    var p := StripEnd(StripStart(raw));
    if p == "" then None else Some(Render(Canons(Segs(Cut(Local(p))))))
  }

  /** A path with nothing for `NormalizePath` to strip. */
  ghost predicate Plain(s: string) {
    && (forall c :: c in s ==> !IsSpace(c) && !IsMark(c))
    && NoScheme(s)
  }

  ghost predicate NoScheme(s: string) {
    forall i :: 0 <= i && i + 2 < |s| && s[i] == ':' && s[i + 1] == '/' ==> s[i + 2] != '/'
  }

  lemma {:induction false} NoSchemeIsNone(s: string)
    requires NoScheme(s)
    ensures AfterScheme(s) == None
  {
    if |s| >= 3 {
      assert s[0] == s[..3][0] && s[1] == s[..3][1] && s[2] == s[..3][2];
      NoSchemePart(s, 1, |s|);
      NoSchemeIsNone(s[1..]);
    }
  }

  lemma {:induction false} NoMarkIsUncut(s: string)
    requires forall c :: c in s ==> !IsMark(c)
    ensures FirstMark(s) == "" && BeforeMark(s) == s
  {
    if s != "" {
      assert s[0] in s;
      assert forall c :: c in s[1..] ==> c in s;
      NoMarkIsUncut(s[1..]);
    }
  }

  lemma NoSpaceIsUnstripped(s: string)
    requires forall c :: c in s ==> !IsSpace(c)
    ensures StripEnd(StripStart(s)) == s
  {
  }

  lemma PlainNormalizes(s: string)
    requires Plain(s) && s != ""
    ensures NormalizePath(s) == Some(Render(Canons(Segs(s))))
  {
    NoSpaceIsUnstripped(s);
    NoSchemeIsNone(s);
    NoMarkIsUncut(s);
    assert Cut(s) == s;
  }

  lemma NoSchemePart(s: string, i: nat, j: nat)
    requires NoScheme(s) && i <= j <= |s|
    ensures NoScheme(s[i..j])
  {
    var t := s[i..j];
    forall k | 0 <= k && k + 2 < |t| && t[k] == ':' && t[k + 1] == '/'
      ensures t[k + 2] != '/'
    {
      assert s[i + k] == ':' && s[i + k + 1] == '/';
    }
  }

  lemma PlainPart(s: string, i: nat, j: nat)
    requires Plain(s) && i <= j <= |s|
    ensures Plain(s[i..j])
  {
    NoSchemePart(s, i, j);
  }

  lemma PlainCore(s: string)
    requires Plain(s)
    ensures Plain(TrimStart(s)) && Plain(Core(s))
  {
    TrimStartShape(s);
    var n: nat :| n <= |s| && TrimStart(s) == s[n..];
    PlainPart(s, n, |s|);
    assert s[n..|s|] == s[n..];
    var t := TrimStart(s);
    TrimEndShape(t);
    var m: nat :| m <= |t| && TrimEnd(t) == t[..m];
    PlainPart(t, 0, m);
    assert t[0..m] == t[..m];
  }

  lemma PlainGlue(p: string, s: string)
    requires Plain(p) && Plain(s) && (p != "" ==> p[|p| - 1] != '/') && (s != "" ==> s[0] != '/')
    ensures Plain("/" + Glue(p, s))
  {
    var x := "/" + Glue(p, s);
    if p != "" && s != "" {
      assert x == "/" + p + "/" + s;
    }
    forall i | 0 <= i && i + 2 < |x| && x[i] == ':' && x[i + 1] == '/'
      ensures x[i + 2] != '/'
    {
      assert i >= 1;
      if p == "" {
        assert x[i] == s[i - 1] && x[i + 1] == s[i];
      } else if i + 2 <= |p| {
        assert x[i] == p[i - 1] && x[i + 1] == p[i];
      } else if i > |p| {
        assert x[i] == s[i - |p| - 2] && x[i + 1] == s[i - |p| - 1];
      }
    }
  }

  /** For plain paths, normalising a joined path gives the segments of both, each in canonical form. */
  lemma NormalizeOfJoin(a: string, b: string)
    requires Plain(a) && Plain(b)
    ensures NormalizePath(JoinPrefix(a, b)) == Some(Render(Canons(Segs(a)) + Canons(Segs(b))))
  {
    var p, s := Core(a), TrimStart(b);
    PlainCore(a);
    PlainCore(b);
    TrimStartShape(b);
    TrimEndShape(TrimStart(a));
    JoinIsGlue(a, b);
    PlainGlue(p, s);
    PlainNormalizes(JoinPrefix(a, b));
    SegsOfJoin(a, b);
    CanonsConcat(Segs(a), Segs(b));
  }

  lemma {:induction false} CanonsConcat(a: seq<string>, b: seq<string>)
    ensures Canons(a + b) == Canons(a) + Canons(b)
  {
    if a == [] {
      assert a + b == b;
    } else {
      CanonsConcat(a[1..], b);
      assert (a + b)[1..] == a[1..] + b;
    }
  }
}
