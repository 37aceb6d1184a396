/** Normalising a path a second time: what the first pass leaves behind, and when the second changes
    nothing. The first pass can leave query marks (behind a Ruby interpolation) and white space (in
    front of a query that it cut); the second takes both off. */
module NormalForm {
  import opened Common
  import opened Slashes
  import opened Paths

  /** A segment as `NormalizePath` leaves it. */
  ghost predicate Canonical(seg: string) {
    && seg != ""
    && '/' !in seg
    && Canon(seg) == seg
    && (seg == PARAM || '{' !in seg)
  }

  ghost predicate AllCanonical(segs: seq<string>) {
    segs == [] || (Canonical(segs[0]) && AllCanonical(segs[1..]))
  }

  lemma {:induction false} LoweredChars(s: string)
    ensures |Lowered(s)| == |s| && forall i :: 0 <= i < |s| ==> Lowered(s)[i] == Lower(s[i])
  {
    if s != "" { LoweredChars(s[1..]); }
  }

  lemma LoweredTwice(s: string)
    ensures Lowered(Lowered(s)) == Lowered(s)
  {
    LoweredChars(s);
    LoweredChars(Lowered(s));
  }

  lemma CanonIsCanonical(seg: string)
    requires seg != "" && '/' !in seg
    ensures Canonical(Canon(seg))
    ensures forall c :: c in Canon(seg) && (IsSpace(c) || IsMark(c)) ==> c in seg
  {
    LoweredChars(seg);
    LoweredTwice(seg);
    if !IsParam(seg) {
      var l := Lowered(seg);
      assert l[0] == Lower(seg[0]);
      forall c | c in l
        ensures (c == '{' || c == '/' || IsSpace(c) || IsMark(c)) ==> c in seg
      {
        var i :| 0 <= i < |l| && l[i] == c;
        assert c == Lower(seg[i]);
      }
    }
  }

  /** Canonical segments have no white space and no mark that the segments did not have. */
  lemma {:induction false} CanonsAreCanonical(segs: seq<string>)
    requires Pieces(segs)
    ensures AllCanonical(Canons(segs))
    ensures forall c :: c in Chars(Canons(segs)) && (IsSpace(c) || IsMark(c)) ==> c in Chars(segs)
  {
    if segs != [] {
      CanonIsCanonical(segs[0]);
      CanonsAreCanonical(segs[1..]);
      var r := Canons(segs);
      assert r[0] == Canon(segs[0]) && r[1..] == Canons(segs[1..]);
    }
  }

  lemma {:induction false} CanonsOfCanonical(segs: seq<string>)
    requires AllCanonical(segs)
    ensures Canons(segs) == segs
  {
    if segs != [] { CanonsOfCanonical(segs[1..]); }
  }

  /** One rendered segment in front of a rendered rest. */
  lemma SegsOfPrepend(x: string, tail: string)
    requires '/' !in x && x != "" && tail != "" && tail[0] == '/'
    ensures Segs("/" + x + tail) == [x] + Segs(tail)
  {
    var t := tail[1..];
    assert tail == "/" + t;
    assert "/" + x + tail == "/" + (x + "/" + t);
    SegsAfterSlash(x + "/" + t);
    SegsAtSlash(x, t);
    SegsAfterSlash(t);
    SegsOfWhole(x);
  }

  lemma RenderStarts(segs: seq<string>)
    ensures Render(segs) != "" && Render(segs)[0] == '/'
  {
  }

  /** Rendering segments and splitting the path again gives the segments. */
  lemma {:induction false} SegsOfRender(segs: seq<string>)
    requires AllCanonical(segs)
    ensures Segs(Render(segs)) == segs
  {
    if segs == [] {
      SegsAfterSlash("");
      SegsOfNothing();
      assert "/" + "" == "/";
    } else if |segs| == 1 {
      SegsAfterSlash(segs[0]);
      SegsOfWhole(segs[0]);
    } else {
      SegsOfRender(segs[1..]);
      RenderStarts(segs[1..]);
      SegsOfPrepend(segs[0], Render(segs[1..]));
    }
  }

  lemma {:induction false} RenderChars(segs: seq<string>)
    ensures Elements(Render(segs)) == Chars(segs) + {'/'}
  {
    if segs != [] {
      RenderChars(segs[1..]);
      if |segs| == 1 {
        assert segs[1..] == [];
        assert Render(segs) == "/" + segs[0];
      } else {
        ElementsConcat("/" + segs[0], Render(segs[1..]));
      }
      ElementsConcat("/", segs[0]);
    }
  }

  /** A slash is never followed by a slash, and a brace always follows one. */
  ghost predicate WellSpaced(s: string) {
    forall i :: 0 < i < |s| ==> (s[i - 1] == '/' ==> s[i] != '/') && (s[i] == '{' ==> s[i - 1] == '/')
  }

  lemma {:induction false} RenderSpaced(segs: seq<string>)
    requires AllCanonical(segs)
    ensures WellSpaced(Render(segs)) && Render(segs)[0] == '/'
  {
    if |segs| == 1 {
      assert "/" + segs[0] + "" == "/" + segs[0];
    } else if |segs| > 1 {
      RenderSpaced(segs[1..]);
    }
  }

  lemma {:induction false} BeforeMarkChars(s: string)
    ensures forall c :: c in BeforeMark(s) ==> !IsMark(c) && c in s
  {
    if s != "" && !IsMark(s[0]) {
      BeforeMarkChars(s[1..]);
      assert forall c :: c in s[1..] ==> c in s;
    }
  }

  function Stripped(raw: string): string {
    StripEnd(StripStart(raw))
  }

  /** The segments of a path before they are rewritten. */
  function RawSegs(raw: string): seq<string> {
    Segs(Cut(Local(Stripped(raw))))
  }

  /** A normalised path: segments already canonical, no scheme to strip. */
  lemma {:induction false} NormalizedShape(raw: string)
    requires NormalizePath(raw).Some?
    ensures var n, segs := NormalizePath(raw).value, Canons(RawSegs(raw));
            && n == Render(segs) && n[0] == '/' && WellSpaced(n)
            && AllCanonical(segs) && Segs(n) == segs && Canons(segs) == segs
  {
    var segs := Canons(RawSegs(raw));
    SegsArePieces(Cut(Local(Stripped(raw))));
    CanonsAreCanonical(RawSegs(raw));
    SegsOfRender(segs);
    CanonsOfCanonical(segs);
    RenderSpaced(segs);
  }

  lemma {:induction false} FirstMarkShape(s: string)
    ensures exists k: nat :: k <= |s| && FirstMark(s) == s[k..] && (k < |s| ==> IsMark(s[k]))
    ensures FirstMark(s) == "" ==> forall c :: c in s ==> !IsMark(c)
  {
    if s == "" || IsMark(s[0]) {
      assert s[0..] == s;
    } else {
      FirstMarkShape(s[1..]);
      var k: nat :| k <= |s[1..]| && FirstMark(s[1..]) == s[1..][k..] && (k < |s[1..]| ==> IsMark(s[1..][k]));
      assert s[1..][k..] == s[k + 1..];
    }
  }

  lemma OpensAt(s: string, k: nat)
    requires k <= |s|
    ensures "#{" <= s[k..] <==> k + 1 < |s| && s[k] == '#' && s[k + 1] == '{'
  {
    if k + 1 < |s| {
      assert s[k..][0] == s[k] && s[k..][1] == s[k + 1];
    }
  }

  /** In a well-spaced path no mark opens an interpolation. */
  lemma SpacedIsCut(n: string)
    requires WellSpaced(n)
    ensures Cut(n) == BeforeMark(n) && !("#{" <= FirstMark(n))
  {
    FirstMarkShape(n);
    var k: nat :| k <= |n| && FirstMark(n) == n[k..] && (k < |n| ==> IsMark(n[k]));
    OpensAt(n, k);
  }

  // ---- Marks that survive ----

  /** Some segment that is no parameter holds a query or fragment mark. */
  ghost predicate MarkedSegment(segs: seq<string>) {
    segs != [] && ((!IsParam(segs[0]) && exists c :: c in segs[0] && IsMark(c)) || MarkedSegment(segs[1..]))
  }

  lemma {:induction false} MarksOfCanons(segs: seq<string>)
    ensures (exists c :: c in Chars(Canons(segs)) && IsMark(c)) <==> MarkedSegment(segs)
  {
    if segs != [] {
      MarksOfCanons(segs[1..]);
      var r := Canons(segs);
      assert r[0] == Canon(segs[0]) && r[1..] == Canons(segs[1..]);
      MarksOfCanon(segs[0]);
      assert forall c :: c in Chars(r) <==> c in Canon(segs[0]) || c in Chars(Canons(segs[1..]));
    }
  }

  lemma MarksOfCanon(seg: string)
    ensures (exists c :: c in Canon(seg) && IsMark(c)) <==> !IsParam(seg) && exists c :: c in seg && IsMark(c)
  {
    LoweredChars(seg);
    if c :| c in Lowered(seg) && IsMark(c) {
      var i :| 0 <= i < |seg| && Lowered(seg)[i] == c;
      assert seg[i] in seg && IsMark(seg[i]);
    }
    if c :| c in seg && IsMark(c) {
      var i :| 0 <= i < |seg| && seg[i] == c;
      assert Lowered(seg)[i] == c;
    }
  }

  lemma {:induction false} UnmarkedSegments(segs: seq<string>)
    requires forall c :: c in Chars(segs) ==> !IsMark(c)
    ensures !MarkedSegment(segs)
  {
    if segs != [] {
      assert forall c :: c in segs[0] ==> c in Chars(segs);
      UnmarkedSegments(segs[1..]);
    }
  }

  lemma {:induction false} RenderedMarks(segs: seq<string>)
    ensures (exists c :: c in Render(Canons(segs)) && IsMark(c)) <==> MarkedSegment(segs)
  {
    MarksOfCanons(segs);
    RenderChars(Canons(segs));
    assert forall c :: c in Render(Canons(segs)) <==> c in Elements(Render(Canons(segs)));
  }

  lemma {:induction false} UnmarkedPath(p: string)
    requires forall c :: c in p ==> !IsMark(c)
    ensures forall c :: c in Render(Canons(Segs(p))) ==> !IsMark(c)
  {
    SegsArePieces(p);
    UnmarkedSegments(Segs(p));
    RenderedMarks(Segs(p));
  }

  ghost predicate MarkSurvives(raw: string) {
    var local := Local(Stripped(raw));
    "#{" <= FirstMark(local) && MarkedSegment(Segs(local))
  }

  /** A query or fragment mark survives exactly when the first mark opens an interpolation and one
      lies in a segment that is no parameter. */
  lemma {:induction false} MarksKept(raw: string)
    requires NormalizePath(raw).Some?
    ensures (exists c :: c in NormalizePath(raw).value && IsMark(c)) <==> MarkSurvives(raw)
  {
    var local := Local(Stripped(raw));
    RenderedMarks(RawSegs(raw));
    if !("#{" <= FirstMark(local)) {
      BeforeMarkChars(local);
      UnmarkedPath(BeforeMark(local));
    }
  }

  lemma SpacedIsLocal(n: string)
    requires WellSpaced(n)
    ensures Local(n) == n
  {
    NoSchemeIsNone(n);
  }

  // ---- White space at the end ----

  ghost predicate EndsInSpace(s: string) {
    s != "" && IsSpace(s[|s| - 1])
  }

  /** Stripping stops at a character that is no white space. */
  lemma {:induction false} StripEndAfter(x: string, y: string)
    requires x != "" && !EndsInSpace(x)
    ensures StripEnd(x + y) == x + StripEnd(y)
  {
    if y == "" {
      assert x + y == x;
    } else if IsSpace(y[|y| - 1]) {
      StripEndAfter(x, y[..|y| - 1]);
      assert (x + y)[..|x + y| - 1] == x + y[..|y| - 1];
    }
  }

  lemma {:induction false} StripEndIsPrefix(s: string)
    ensures StripEnd(s) <= s && (EndsInSpace(s) ==> |StripEnd(s)| < |s|)
    ensures forall c :: c in StripEnd(s) ==> c in s
  {
    if EndsInSpace(s) {
      StripEndIsPrefix(s[..|s| - 1]);
    }
  }

  /** All but the last segment, as they come before the last slash. */
  function Before(front: seq<string>): string {
    if front == [] then "" else Render(front)
  }

  lemma {:induction false} RenderFirst(segs: seq<string>)
    requires segs != []
    ensures Render(segs) == "/" + segs[0] + Before(segs[1..])
  {
    assert "/" + segs[0] + "" == "/" + segs[0];
  }

  lemma {:induction false} RenderLast(front: seq<string>, last: string)
    ensures Render(front + [last]) == Before(front) + "/" + last
  {
    if front == [] {
      assert [] + [last] == [last] && "" + "/" + last == "/" + last;
      RenderFirst([last]);
    } else {
      RenderLast(front[1..], last);
      ConcatTail(front, [last]);
      RenderFirst(front);
      RenderFirst(front + [last]);
      Regroup("/" + front[0], Before(front[1..]), "/" + last);
      Regroup(Before(front[1..]), "/", last);
      Regroup(Before(front), "/", last);
    }
  }

  lemma {:induction false} CanonicalPush(front: seq<string>, last: string)
    requires AllCanonical(front) && Canonical(last)
    ensures AllCanonical(front + [last])
  {
    if front != [] {
      CanonicalPush(front[1..], last);
      assert (front + [last])[1..] == front[1..] + [last];
    } else {
      assert [last][1..] == [];
    }
  }

  lemma {:induction false} CanonicalSplit(front: seq<string>, last: string)
    requires AllCanonical(front + [last])
    ensures AllCanonical(front) && Canonical(last)
  {
    if front != [] {
      assert (front + [last])[1..] == front[1..] + [last];
      CanonicalSplit(front[1..], last);
    }
  }

  /** A canonical segment that ends in white space is still canonical without it. */
  lemma {:induction false} StrippedIsCanonical(last: string)
    requires Canonical(last) && EndsInSpace(last) && StripEnd(last) != ""
    ensures Canonical(StripEnd(last))
  {
    StripEndIsPrefix(last);
    var l := StripEnd(last);
    assert last != PARAM;
    assert forall i :: 0 <= i < |l| ==> l[i] == last[i];
    LoweredChars(l);
    LoweredChars(last);
    assert Lowered(last)[..|l|] == last[..|l|];
    assert !IsParam(l);
    assert Lowered(l) == l;
  }

  /** What is left of a normalised path without the white space at its end. */
  function StrippedSegs(segs: seq<string>): seq<string>
    requires segs != []
  {
    var l := StripEnd(segs[|segs| - 1]);
    segs[..|segs| - 1] + if l == "" then [] else [l]
  }

  lemma {:induction false} SegsOfStripped(segs: seq<string>)
    requires segs != [] && AllCanonical(segs)
    ensures Segs(StripEnd(Render(segs))) == StrippedSegs(segs)
  {
    var front, last := segs[..|segs| - 1], segs[|segs| - 1];
    assert segs == front + [last];
    CanonicalSplit(front, last);
    StrippedRender(front, last);
    StripEndIsPrefix(last);
    SegsOfLast(front, StripEnd(last));
  }

  lemma {:induction false} StrippedRender(front: seq<string>, last: string)
    ensures StripEnd(Render(front + [last])) == Before(front) + "/" + StripEnd(last)
  {
    RenderLast(front, last);
    var x := Before(front) + "/";
    assert x[|x| - 1] == '/';
    StripEndAfter(x, last);
  }

  lemma {:induction false} SegsOfLast(front: seq<string>, last: string)
    requires AllCanonical(front) && '/' !in last
    ensures Segs(Before(front) + "/" + last) == front + if last == "" then [] else [last]
  {
    SegsAtSlash(Before(front), last);
    SegsOfRender(front);
    SegsOfNothing();
    if last != "" {
      SegsOfWhole(last);
    }
  }

  lemma {:induction false} StrippedSegsCanonical(segs: seq<string>)
    requires segs != [] && AllCanonical(segs) && EndsInSpace(segs[|segs| - 1])
    ensures AllCanonical(StrippedSegs(segs)) && StrippedSegs(segs) != segs
  {
    var front, last := segs[..|segs| - 1], segs[|segs| - 1];
    assert segs == front + [last];
    CanonicalSplit(front, last);
    StripEndIsPrefix(last);
    var l := StripEnd(last);
    if l == "" {
      assert front + [] == front;
    } else {
      StrippedIsCanonical(last);
      CanonicalPush(front, l);
      assert (front + [l])[|front|] == l;
    }
  }

  lemma {:induction false} RenderEnds(segs: seq<string>)
    requires AllCanonical(segs)
    ensures EndsInSpace(Render(segs)) <==> segs != [] && EndsInSpace(segs[|segs| - 1])
  {
    if segs != [] {
      var front, last := segs[..|segs| - 1], segs[|segs| - 1];
      assert segs == front + [last];
      CanonicalSplit(front, last);
      RenderLast(front, last);
    }
  }

  // ---- Normalising twice ----

  lemma {:induction false} StripSpaced(n: string)
    requires n != "" && n[0] == '/' && WellSpaced(n)
    ensures Stripped(n) == StripEnd(n) && StripEnd(n) != "" && WellSpaced(StripEnd(n))
  {
    StripEndIsPrefix(n);
    var p := StripEnd(n);
    assert forall i :: 0 <= i < |p| ==> p[i] == n[i];
    assert "/" + n[1..] == n;
    StripEndAfter("/", n[1..]);
  }

  /** The second pass strips white space at the end, and then cuts at the first mark. */
  lemma {:induction false} SecondPass(raw: string)
    requires NormalizePath(raw).Some?
    ensures var n := NormalizePath(raw).value;
            NormalizePath(n) == Some(Render(Canons(Segs(BeforeMark(StripEnd(n))))))
  {
    NormalizedShape(raw);
    var n := NormalizePath(raw).value;
    StripSpaced(n);
    SpacedIsLocal(StripEnd(n));
    SpacedIsCut(StripEnd(n));
  }

  lemma {:induction false} UnstrippedSegs(segs: seq<string>)
    requires AllCanonical(segs) && EndsInSpace(Render(segs))
    ensures Render(Canons(Segs(StripEnd(Render(segs))))) != Render(segs)
  {
    RenderEnds(segs);
    SegsOfStripped(segs);
    StrippedSegsCanonical(segs);
    CanonsOfCanonical(StrippedSegs(segs));
    SegsOfRender(StrippedSegs(segs));
    SegsOfRender(segs);
  }

  /** On every input a second pass changes nothing exactly when the first leaves no query or fragment
      mark, and no white space at the end. */
  lemma {:induction false} NormalizeTwice(raw: string)
    requires NormalizePath(raw).Some?
    ensures var n := NormalizePath(raw).value;
            NormalizePath(n) == Some(n) <==> (forall c :: c in n ==> !IsMark(c)) && !EndsInSpace(n)
  {
    NormalizedShape(raw);
    SecondPass(raw);
    var n := NormalizePath(raw).value;
    var p := StripEnd(n);
    StripEndIsPrefix(n);
    BeforeMarkChars(p);
    UnmarkedPath(BeforeMark(p));
    if forall c :: c in n ==> !IsMark(c) {
      NoMarkIsUncut(p);
      if EndsInSpace(n) {
        UnstrippedSegs(Segs(n));
      }
    }
  }

  /** The same conditions on the input itself: a mark survives, or the last segment is no parameter and
      ends in white space. */
  lemma {:induction false} NormalizeTwiceExactly(raw: string)
    requires NormalizePath(raw).Some?
    ensures NormalizePath(NormalizePath(raw).value) == NormalizePath(raw) <==>
              !MarkSurvives(raw) && !SpaceSurvives(raw)
  {
    NormalizeTwice(raw);
    MarksKept(raw);
    SpaceKept(raw);
  }

  ghost predicate SpaceSurvives(raw: string) {
    SpacedEnd(RawSegs(raw))
  }

  ghost predicate SpacedEnd(segs: seq<string>) {
    segs != [] && !IsParam(segs[|segs| - 1]) && EndsInSpace(segs[|segs| - 1])
  }

  lemma {:induction false} CanonsLast(segs: seq<string>)
    requires segs != []
    ensures |Canons(segs)| == |segs| && Canons(segs)[|segs| - 1] == Canon(segs[|segs| - 1])
  {
    if |segs| > 1 {
      CanonsLast(segs[1..]);
    }
  }

  lemma {:induction false} SpaceKept(raw: string)
    requires NormalizePath(raw).Some?
    ensures EndsInSpace(NormalizePath(raw).value) <==> SpaceSurvives(raw)
  {
    NormalizedShape(raw);
    SpacedCanons(RawSegs(raw));
  }

  lemma {:induction false} SpacedCanons(segs: seq<string>)
    requires AllCanonical(Canons(segs))
    ensures EndsInSpace(Render(Canons(segs))) <==> SpacedEnd(segs)
  {
    RenderEnds(Canons(segs));
    if segs != [] {
      CanonsLast(segs);
      CanonEnds(segs[|segs| - 1]);
    }
  }

  lemma {:induction false} CanonEnds(seg: string)
    ensures EndsInSpace(Canon(seg)) <==> !IsParam(seg) && EndsInSpace(seg)
  {
    LoweredChars(seg);
  }

  ghost predicate HasInterpolation(s: string) {
    exists i :: 0 <= i && i + 1 < |s| && s[i] == '#' && s[i + 1] == '{'
  }

  lemma {:induction false} FromSlashIsSuffix(s: string)
    ensures FromSlash(s) == "/" || exists k: nat :: k <= |s| && FromSlash(s) == s[k..]
  {
    if s != "" {
      if s[0] == '/' {
        assert s[0..] == s;
      } else {
        FromSlashIsSuffix(s[1..]);
        if k: nat :| k <= |s[1..]| && FromSlash(s[1..]) == s[1..][k..] {
          assert s[1..][k..] == s[k + 1..];
        }
      }
    }
  }

  lemma {:induction false} AfterSchemeIsSuffix(s: string)
    ensures AfterScheme(s).Some? ==> exists k: nat :: k <= |s| && AfterScheme(s).value == s[k..]
  {
    if |s| >= 3 && s[..3] != "://" {
      AfterSchemeIsSuffix(s[1..]);
      if AfterScheme(s).Some? {
        var k: nat :| k <= |s[1..]| && AfterScheme(s).value == s[1..][k..];
        assert s[1..][k..] == s[k + 1..];
      }
    }
  }

  lemma SuffixInterpolation(s: string, k: nat)
    requires k <= |s| && !HasInterpolation(s)
    ensures !HasInterpolation(s[k..])
  {
    var t := s[k..];
    forall i | 0 <= i && i + 1 < |t|
      ensures !(t[i] == '#' && t[i + 1] == '{')
    {
      assert t[i] == s[k + i] && t[i + 1] == s[k + i + 1];
    }
  }

  lemma LocalInterpolation(raw: string)
    requires !HasInterpolation(raw)
    ensures !HasInterpolation(Local(raw))
  {
    AfterSchemeIsSuffix(raw);
    if AfterScheme(raw).Some? {
      var k: nat :| k <= |raw| && AfterScheme(raw).value == raw[k..];
      SuffixInterpolation(raw, k);
      FromSlashIsSuffix(raw[k..]);
      if j: nat :| j <= |raw[k..]| && FromSlash(raw[k..]) == raw[k..][j..] {
        SuffixInterpolation(raw[k..], j);
      }
    }
  }

  lemma UninterpolatedIsCut(l: string)
    requires !HasInterpolation(l)
    ensures Cut(l) == BeforeMark(l) && !("#{" <= FirstMark(l))
  {
    FirstMarkShape(l);
    var k: nat :| k <= |l| && FirstMark(l) == l[k..] && (k < |l| ==> IsMark(l[k]));
    OpensAt(l, k);
  }

  /** On input without white space and without "#{", normalising is idempotent. */
  lemma {:induction false} NormalizeIdempotent(raw: string)
    requires (forall c :: c in raw ==> !IsSpace(c)) && !HasInterpolation(raw)
    ensures NormalizePath(raw).Some? ==> NormalizePath(NormalizePath(raw).value) == NormalizePath(raw)
  {
    if NormalizePath(raw).Some? {
      NormalizeTwiceExactly(raw);
      NoSpaceIsUnstripped(raw);
      LocalInterpolation(raw);
      UninterpolatedIsCut(Local(raw));
      NoSpaceSurvives(raw);
    }
  }

  lemma {:induction false} FromSlashChars(s: string)
    ensures forall c :: c in FromSlash(s) ==> c in s || c == '/'
  {
    if s != "" { FromSlashChars(s[1..]); }
  }

  lemma {:induction false} AfterSchemeChars(s: string)
    ensures AfterScheme(s).Some? ==> forall c :: c in AfterScheme(s).value ==> c in s
  {
    if |s| >= 3 { AfterSchemeChars(s[1..]); }
  }

  lemma {:induction false} NoSpaceSurvives(raw: string)
    requires (forall c :: c in raw ==> !IsSpace(c)) && raw != ""
    ensures !SpaceSurvives(raw)
  {
    NoSpaceIsUnstripped(raw);
    AfterSchemeChars(raw);
    if AfterScheme(raw).Some? { FromSlashChars(AfterScheme(raw).value); }
    BeforeMarkChars(Local(raw));
    var body := Cut(Local(raw));
    assert forall c :: c in body ==> !IsSpace(c);
    UnspacedSegs(body);
  }

  lemma {:induction false} UnspacedSegs(body: string)
    requires forall c :: c in body ==> !IsSpace(c)
    ensures !SpacedEnd(Segs(body))
  {
    SegsArePieces(body);
    var segs := Segs(body);
    if segs != [] {
      LastChars(segs);
      var last := segs[|segs| - 1];
      if last != "" {
        assert last[|last| - 1] in last;
        assert last[|last| - 1] in Elements(body);
      }
    }
  }

  lemma {:induction false} LastChars(segs: seq<string>)
    requires segs != []
    ensures forall c :: c in segs[|segs| - 1] ==> c in Chars(segs)
  {
    if |segs| > 1 { LastChars(segs[1..]); }
  }

  // ---- A family that a second pass changes ----

  lemma ColonFree(s: string)
    requires forall c :: c in s ==> c != ':'
    ensures AfterScheme(s) == None
  {
    assert forall i :: 0 <= i < |s| ==> s[i] in s;
    NoSchemeIsNone(s);
  }

  lemma SegsOfTwo(x: string, y: string)
    requires '/' !in x && '/' !in y && x != "" && y != ""
    ensures Segs(x + "/" + y) == [x] + [y]
  {
    SegsAtSlash(x, y);
    SegsOfWhole(x);
    SegsOfWhole(y);
  }

  lemma MarkedSecond(x: string, y: string)
    requires !IsParam(y) && '?' in y
    ensures MarkedSegment([x] + [y])
  {
    assert ([x] + [y])[1..] == [y];
    assert IsMark('?');
  }

  lemma OpensFirst(raw: string)
    requires "#{" <= raw
    ensures "#{" <= FirstMark(raw)
  {
    assert raw[0] == "#{"[0];
  }

  /** A first segment that opens with an interpolation keeps a query mark behind it through the
      first pass, and the second pass cuts it: "#{id}/b?q" becomes "/{*}/b?q" and then "/{*}/b". */
  lemma {:induction false} InterpolationIsNotIdempotent(x: string, y: string)
    requires "#{" <= x && y != "" && !IsParam(y) && '?' in y
    requires forall c :: c in x || c in y ==> !IsSpace(c) && c != '/' && c != ':'
    ensures NormalizePath(x + "/" + y).Some?
    ensures NormalizePath(NormalizePath(x + "/" + y).value) != NormalizePath(x + "/" + y)
  {
    var raw := x + "/" + y;
    assert forall c :: c in raw ==> c in x || c == '/' || c in y;
    NoSpaceIsUnstripped(raw);
    ColonFree(raw);
    OpensFirst(raw);
    SegsOfTwo(x, y);
    MarkedSecond(x, y);
    NormalizeTwiceExactly(raw);
  }

  lemma {:induction false} StripsNothing(s: string)
    requires s != "" && !IsSpace(s[0]) && !EndsInSpace(s)
    ensures Stripped(s) == s
  {
  }

  /** White space in front of a cut mark does the same: "a ?q" becomes "/a " and then "/a". */
  lemma {:induction false} SpaceIsNotIdempotent(x: string, y: string)
    requires EndsInSpace(x) && !IsSpace(x[0]) && !IsParam(x) && y != ""
    requires forall c :: c in x ==> !IsMark(c) && c != '/' && c != ':'
    requires forall c :: c in y ==> !IsMark(c) && !IsSpace(c) && c != ':'
    ensures NormalizePath(x + "?" + y).Some?
    ensures NormalizePath(NormalizePath(x + "?" + y).value) != NormalizePath(x + "?" + y)
  {
    var raw := x + "?" + y;
    assert raw[0] == x[0] && raw[|raw| - 1] == y[|y| - 1] && y[|y| - 1] in y;
    StripsNothing(raw);
    assert forall c :: c in raw ==> c in x || c == '?' || c in y;
    ColonFree(raw);
    FirstMarkAt(x, y);
    assert !("#{" <= "?" + y) by { assert ("?" + y)[0] != "#{"[0]; }
    SegsOfWhole(x);
    assert RawSegs(raw) == [x];
    NormalizeTwiceExactly(raw);
  }

  lemma {:induction false} FirstMarkAt(x: string, y: string)
    requires forall c :: c in x ==> !IsMark(c)
    ensures FirstMark(x + "?" + y) == "?" + y && BeforeMark(x + "?" + y) == x
  {
    var s := x + "?" + y;
    if x == "" {
      assert s == "?" + y;
    } else {
      FirstMarkAt(x[1..], y);
      assert s[1..] == x[1..] + "?" + y && s[0] == x[0] && x[0] in x;
    }
  }
}
