/** Strings between slashes: slashes trimmed off the ends of a path, a path split at its slashes, and
    the pieces that are left when the empty ones are dropped. Everything else about paths is said in
    terms of these segments. */
module Slashes {
  import opened Common

  // ---- Trimming ----

  function TrimStart(s: string): string {
    if s != "" && s[0] == '/' then TrimStart(s[1..]) else s
  }

  function TrimEnd(s: string): string {
    if s != "" && s[|s| - 1] == '/' then TrimEnd(s[..|s| - 1]) else s
  }

  lemma {:induction false} TrimStartShape(s: string)
    ensures TrimStart(s) != "" ==> TrimStart(s)[0] != '/'
    ensures exists n: nat :: n <= |s| && TrimStart(s) == s[n..]
    ensures (s == "" || s[0] != '/') ==> TrimStart(s) == s
  {
    if s != "" && s[0] == '/' {
      TrimStartShape(s[1..]);
      var n: nat :| n <= |s[1..]| && TrimStart(s) == s[1..][n..];
      assert s[1..][n..] == s[n + 1..];
    } else {
      assert s[0..] == s;
    }
  }

  lemma {:induction false} TrimEndShape(s: string)
    ensures TrimEnd(s) != "" ==> TrimEnd(s)[|TrimEnd(s)| - 1] != '/'
    ensures exists n: nat :: n <= |s| && TrimEnd(s) == s[..n]
    ensures (s == "" || s[|s| - 1] != '/') ==> TrimEnd(s) == s
    ensures s != "" && s[0] != '/' ==> TrimEnd(s) != ""
  {
    if s != "" && s[|s| - 1] == '/' {
      var f := s[..|s| - 1];
      TrimEndShape(f);
      var n: nat :| n <= |f| && TrimEnd(f) == f[..n];
      assert f[..n] == s[..n];
    } else {
      assert s[..|s|] == s;
    }
  }

  /** Trailing slashes after a part that is more than slashes are that part's own. */
  lemma {:induction false} TrimEndAfter(x: string, y: string)
    requires TrimEnd(y) != ""
    ensures TrimEnd(x + y) == x + TrimEnd(y)
  {
    if y[|y| - 1] == '/' {
      TrimEndAfter(x, y[..|y| - 1]);
      assert (x + y)[..|x + y| - 1] == x + y[..|y| - 1];
    }
  }

  // ---- Segments ----

  function Split(s: string): (r: seq<string>)
    ensures r != []
  {
    if s == "" then [""]
    else if s[0] == '/' then [""] + Split(s[1..])
    else var r := Split(s[1..]); [[s[0]] + r[0]] + r[1..]
  }

  function NonEmpty(parts: seq<string>): seq<string> {
    if parts == [] then []
    else (if parts[0] == "" then [] else [parts[0]]) + NonEmpty(parts[1..])
  }

  /** The segments of a path: what lies between its slashes, without the empty pieces. */
  function Segs(s: string): seq<string> {
    NonEmpty(Split(s))
  }

  lemma {:induction false} SplitAtSlash(a: string, b: string)
    ensures Split(a + "/" + b) == Split(a) + Split(b)
  {
    var x := a + "/" + b;
    if a == "" {
      assert x == "/" + b && x[1..] == b;
    } else {
      SplitAtSlash(a[1..], b);
      var ra, rb := Split(a[1..]), Split(b);
      assert x[1..] == a[1..] + "/" + b && x[0] == a[0];
      ConcatTail(ra, rb);
      if a[0] == '/' {
        Regroup([""], ra, rb);
      } else {
        Regroup([[a[0]] + ra[0]], ra[1..], rb);
      }
    }
  }

  lemma {:induction false} NonEmptyConcat(a: seq<string>, b: seq<string>)
    ensures NonEmpty(a + b) == NonEmpty(a) + NonEmpty(b)
  {
    if a == [] {
      assert a + b == b;
    } else {
      NonEmptyConcat(a[1..], b);
      ConcatTail(a, b);
      Regroup(if a[0] == "" then [] else [a[0]], NonEmpty(a[1..]), NonEmpty(b));
    }
  }

  lemma SegsAtSlash(a: string, b: string)
    ensures Segs(a + "/" + b) == Segs(a) + Segs(b)
  {
    SplitAtSlash(a, b);
    NonEmptyConcat(Split(a), Split(b));
  }

  lemma SegsOfNothing()
    ensures Segs("") == []
  {
    assert NonEmpty([""]) == [] + NonEmpty([""][1..]);
  }

  lemma SegsAfterSlash(x: string)
    ensures Segs("/" + x) == Segs(x)
  {
    assert "/" + x == "" + "/" + x;
    SegsAtSlash("", x);
    SegsOfNothing();
  }

  lemma {:induction false} SegsOfTrimStart(s: string)
    ensures Segs(TrimStart(s)) == Segs(s)
  {
    if s != "" && s[0] == '/' {
      SegsOfTrimStart(s[1..]);
      assert s == "" + "/" + s[1..];
      SegsAtSlash("", s[1..]);
      SegsOfNothing();
    }
  }

  lemma {:induction false} SegsOfTrimEnd(s: string)
    ensures Segs(TrimEnd(s)) == Segs(s)
  {
    if s != "" && s[|s| - 1] == '/' {
      SegsOfTrimEnd(s[..|s| - 1]);
      assert s == s[..|s| - 1] + "/" + "";
      SegsAtSlash(s[..|s| - 1], "");
      SegsOfNothing();
    }
  }

  lemma {:induction false} SplitWhole(s: string)
    requires '/' !in s
    ensures Split(s) == [s]
  {
    if s != "" {
      SplitWhole(s[1..]);
      assert s == [s[0]] + s[1..];
    }
  }

  lemma SegsOfWhole(s: string)
    requires '/' !in s && s != ""
    ensures Segs(s) == [s]
  {
    SplitWhole(s);
    assert [s][1..] == [];
    assert NonEmpty([s]) == [s] + NonEmpty([s][1..]);
  }

  // ---- What the segments are made of ----

  /** The characters of the segments. */
  ghost function Chars(segs: seq<string>): set<char> {
    if segs == [] then {} else Elements(segs[0]) + Chars(segs[1..])
  }

  /** Non-empty pieces without a slash. */
  ghost predicate Pieces(segs: seq<string>) {
    segs == [] || (segs[0] != "" && '/' !in segs[0] && Pieces(segs[1..]))
  }

  lemma {:induction false} SplitChars(s: string)
    ensures Chars(Split(s)) <= Elements(s) - {'/'}
  {
    if s == "" {
      assert [""][1..] == [];
    } else {
      SplitChars(s[1..]);
      var r := Split(s[1..]);
      if s[0] == '/' {
        assert ([""] + r)[1..] == r;
      } else {
        var x := [[s[0]] + r[0]] + r[1..];
        assert x[1..] == r[1..];
        assert Elements(x[0]) == {s[0]} + Elements(r[0]);
      }
      assert Elements(s) == {s[0]} + Elements(s[1..]);
    }
  }

  lemma {:induction false} NonEmptyPieces(parts: seq<string>)
    requires '/' !in Chars(parts)
    ensures Pieces(NonEmpty(parts)) && Chars(NonEmpty(parts)) == Chars(parts)
  {
    if parts != [] {
      NonEmptyPieces(parts[1..]);
      var rest := NonEmpty(parts[1..]);
      assert ([parts[0]] + rest)[1..] == rest;
      assert [] + rest == rest;
      assert '/' !in Elements(parts[0]);
    }
  }

  lemma SegsArePieces(s: string)
    ensures Pieces(Segs(s)) && Chars(Segs(s)) <= Elements(s)
  {
    SplitChars(s);
    NonEmptyPieces(Split(s));
  }
}
