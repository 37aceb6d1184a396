/** Values shared by the modules of the model: optional values, and how solid an edge, a match or a
    detection is; with them the facts about sequences, sets and maps that the proofs of several
    modules need. */
module Common {

  datatype Option<+T> = None | Some(value: T)

  /** How solid an edge, a match or a detection is. */
  datatype Confidence = High | Heuristic

  /** The confidence of two facts used together. */
  function Worse(a: Confidence, b: Confidence): (c: Confidence)
    ensures c == High <==> a == High && b == High
  {
    if a == High && b == High then High else Heuristic
  }

  /** True when no element of `s` occurs twice. */
  ghost predicate Distinct<T>(s: seq<T>) {
    forall i, j :: 0 <= i < j < |s| ==> s[i] != s[j]
  }

  ghost predicate Ascending(s: seq<nat>) {
    forall i, j :: 0 <= i < j < |s| ==> s[i] < s[j]
  }

  /** `picked` are the elements of `s` at the given places, in their order. */
  ghost predicate Picks<T(!new)>(s: seq<T>, places: seq<nat>, picked: seq<T>) {
    && Ascending(places) && |picked| == |places|
    && forall k :: 0 <= k < |places| ==> places[k] < |s| && picked[k] == s[places[k]]
  }

  lemma PicksNext<T(!new)>(s: seq<T>, places: seq<nat>, picked: seq<T>, x: T)
    requires Picks(s, places, picked)
    ensures Picks(s + [x], places, picked)
    ensures Picks(s + [x], places + [|s|], picked + [x])
    ensures forall i :: i in places ==> i < |s|
  {
  }

  /** The elements of a sequence, as a set. */
  function Elements<T>(s: seq<T>): (r: set<T>) {
    set x | x in s
  }

  lemma {:induction false} DistinctCount<T>(s: seq<T>)
    requires Distinct(s)
    ensures |Elements(s)| == |s|
  {
    if |s| > 0 {
      var n := |s| - 1;
      DistinctCount(s[..n]);
      assert s == s[..n] + [s[n]];
      assert Elements(s) == Elements(s[..n]) + {s[n]};
      assert s[n] !in s[..n];
    }
  }

  lemma SubsetCount<T>(a: set<T>, b: set<T>)
    requires a <= b
    ensures |a| <= |b|
  {
    assert b == a + (b - a);
  }

  lemma SubsetSame<T>(a: set<T>, b: set<T>)
    requires a <= b && |a| == |b|
    ensures a == b
  {
    assert b == a + (b - a);
  }

  /** A set is no larger than any sequence that lists it. */
  lemma {:induction false} ElementsCount<T>(s: seq<T>)
    ensures |Elements(s)| <= |s|
  {
    if |s| > 0 {
      var n := |s| - 1;
      ElementsCount(s[..n]);
      assert s == s[..n] + [s[n]];
      assert Elements(s) == Elements(s[..n]) + {s[n]};
    } else {
      assert Elements(s) == {};
    }
  }

  lemma UpdateCount<K, V>(m: map<K, V>, k: K, v: V)
    ensures |m[k := v]| == if k in m then |m| else |m| + 1
  {
    var after := m[k := v];
    assert after.Keys == m.Keys + {k};
    assert |after| == |after.Keys|;
    assert |m| == |m.Keys|;
  }

  lemma Regroup<T>(a: seq<T>, b: seq<T>, c: seq<T>)
    ensures (a + b) + c == a + (b + c)
  {
  }

  lemma ConcatTail<T>(a: seq<T>, b: seq<T>)
    requires a != []
    ensures (a + b)[0] == a[0] && (a + b)[1..] == a[1..] + b
  {
  }

  lemma ElementsConcat<T>(a: seq<T>, b: seq<T>)
    ensures Elements(a + b) == Elements(a) + Elements(b)
  {
    assert forall x :: x in a + b <==> x in a || x in b;
  }

  function Reversed<T>(s: seq<T>): seq<T> {
    if s == [] then [] else Reversed(s[1..]) + [s[0]]
  }

  lemma {:induction false} ReversedLength<T>(s: seq<T>)
    ensures |Reversed(s)| == |s|
  {
    if s != [] { ReversedLength(s[1..]); }
  }

  lemma {:induction false} ReversedAppend<T>(s: seq<T>, t: T)
    ensures Reversed(s + [t]) == [t] + Reversed(s)
  {
    if s == [] {
      assert [t][1..] == [];
      assert Reversed([t]) == [t];
    } else {
      ReversedAppend(s[1..], t);
      assert (s + [t])[1..] == s[1..] + [t];
    }
  }

  // ---- Alphabets ----

  lemma Capitals(c: char)
    ensures c in "ABCDEFGHIJKLMNOPQRSTUVWXYZ" <==> 'A' <= c <= 'Z'
  {
    var letters := "ABCDEFGHIJKLMNOPQRSTUVWXYZ";
    if 'A' <= c <= 'Z' {
      assert letters[c as int - 'A' as int] == c;
    }
  }

  lemma SmallLetters(c: char)
    ensures c in "abcdefghijklmnopqrstuvwxyz" <==> 'a' <= c <= 'z'
  {
    var letters := "abcdefghijklmnopqrstuvwxyz";
    if 'a' <= c <= 'z' {
      assert letters[c as int - 'a' as int] == c;
    }
  }

  lemma Numerals(c: char)
    ensures c in "0123456789" <==> '0' <= c <= '9'
  {
    var digits := "0123456789";
    if '0' <= c <= '9' {
      assert digits[c as int - '0' as int] == c;
    }
  }

  /** Members of an initial segment of the numbers. */
  lemma {:induction false} Interval(a: set<nat>, size: nat)
    requires forall n :: n in a ==> n < size
    ensures |a| <= size
  {
    if size == 0 {
      assert a == {};
    } else {
      Interval(a - {size - 1}, size - 1);
      assert |a| <= |a - {size - 1}| + 1;
    }
  }

  /** The last number below `n` where `p` holds, given one of them. */
  lemma {:induction false} LastWhere(p: nat -> bool, n: nat, j: nat) returns (i: nat)
    requires j < n && p(j)
    ensures i < n && p(i) && forall k :: i < k < n ==> !p(k)
  {
    if p(n - 1) {
      i := n - 1;
    } else {
      i := LastWhere(p, n - 1, j);
    }
  }
}
