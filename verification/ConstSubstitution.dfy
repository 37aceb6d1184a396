/** Argument literals with known constants spelled out, by insertions at shifted positions. */
module ConstSubstitution {
  import opened Common

  datatype LitKind = Str | Ident | OtherKind
  datatype ArgLit = ArgLit(index: nat, key: Option<string>, kind: LitKind, text: string)

  /** The first constant of this name. */
  function Lookup(consts: seq<(string, string)>, name: string): Option<string> {
    if consts == [] then None
    else if consts[0].0 == name then Some(consts[0].1)
    else Lookup(consts[1..], name)
  }

  /** The literal that belongs after `lit`, if any. */
  function Spelled(lit: ArgLit, consts: seq<(string, string)>): Option<ArgLit> {
    if lit.kind == Ident && lit.key.None? && Lookup(consts, lit.text).Some? then
      Some(ArgLit(lit.index, None, Str, Lookup(consts, lit.text).value))
    else None
  }

  /** One pass over the first `n` literals: each, followed by the constant it names. */
  function PassTo(lits: seq<ArgLit>, consts: seq<(string, string)>, n: nat): seq<ArgLit>
    requires n <= |lits|
  {
    if n == 0 then []
    else
      var more := Spelled(lits[n - 1], consts);
      PassTo(lits, consts, n - 1) + [lits[n - 1]] + (if more.Some? then [more.value] else [])
  }

  function OnePass(lits: seq<ArgLit>, consts: seq<(string, string)>): seq<ArgLit> {
    PassTo(lits, consts, |lits|)
  }

  /** `lit` is an identifier argument, given by position, and constant `k` is the first of its name. */
  ghost predicate Names(lit: ArgLit, consts: seq<(string, string)>, k: nat) {
    && lit.kind == Ident && lit.key == None
    && k < |consts| && consts[k].0 == lit.text && forall j :: 0 <= j < k ==> consts[j].0 != lit.text
  }

  /** Behind place `at` of the result comes nothing, or the value of the constant that `lit` names. */
  ghost predicate Followed(pass: seq<ArgLit>, at: nat, next: nat, lit: ArgLit, consts: seq<(string, string)>) {
    || (next == at + 1 && forall k: nat :: !Names(lit, consts, k))
    || (next == at + 2 <= |pass|
        && exists k: nat :: Names(lit, consts, k) && pass[at + 1] == ArgLit(lit.index, None, Str, consts[k].1))
  }

  lemma {:induction false} LookupFirst(consts: seq<(string, string)>, name: string) returns (k: nat)
    ensures k <= |consts| && forall j :: 0 <= j < k ==> consts[j].0 != name
    ensures k < |consts| ==> consts[k].0 == name
    ensures Lookup(consts, name) == if k < |consts| then Some(consts[k].1) else None
  {
    if consts == [] || consts[0].0 == name {
      k := 0;
    } else {
      k := LookupFirst(consts[1..], name);
      assert forall j :: 0 <= j < k + 1 ==> consts[j].0 != name by {
        assert forall j :: 0 < j < k + 1 ==> consts[j] == consts[1..][j - 1];
      }
      k := k + 1;
    }
  }

  lemma SpelledIsFollowed(pass: seq<ArgLit>, at: nat, lit: ArgLit, consts: seq<(string, string)>)
    requires Spelled(lit, consts).Some? ==> at + 1 < |pass| && pass[at + 1] == Spelled(lit, consts).value
    ensures Followed(pass, at, at + (if Spelled(lit, consts).Some? then 2 else 1), lit, consts)
  {
    var k := LookupFirst(consts, lit.text);
    if Spelled(lit, consts).Some? {
      assert Names(lit, consts, k);
    }
  }

  /** Literal `i` comes to stand at place `at[i]`, and the last entry of `at` is the end. */
  ghost predicate Spread(lits: seq<ArgLit>, n: nat, consts: seq<(string, string)>, pass: seq<ArgLit>, at: seq<nat>)
    requires n <= |lits|
  {
    && |at| == n + 1 && at[0] == 0 && at[n] == |pass|
    && forall i :: 0 <= i < n ==>
         at[i] < |pass| && pass[at[i]] == lits[i] && Followed(pass, at[i], at[i + 1], lits[i], consts)
  }

  lemma SpreadNext(lits: seq<ArgLit>, n: nat, consts: seq<(string, string)>, pass: seq<ArgLit>, at: seq<nat>,
      more: seq<ArgLit>)
    requires n < |lits| && Spread(lits, n, consts, pass, at) && more != [] && more[0] == lits[n]
    requires Followed(pass + more, |pass|, |pass + more|, lits[n], consts)
    ensures Spread(lits, n + 1, consts, pass + more, at + [|pass + more|])
  {
    var all, places := pass + more, at + [|pass + more|];
    forall i | 0 <= i < n + 1
      ensures places[i] < |all| && all[places[i]] == lits[i] && Followed(all, places[i], places[i + 1], lits[i], consts)
    {
      if i < n {
        assert places[i] == at[i] && places[i + 1] == at[i + 1];
        assert Followed(pass, at[i], at[i + 1], lits[i], consts);
      }
    }
  }

  /** The pass keeps every literal, in order, each followed by the value of the constant it names. */
  lemma {:induction false} PassMeaning(lits: seq<ArgLit>, consts: seq<(string, string)>, n: nat) returns (at: seq<nat>)
    requires n <= |lits|
    ensures Spread(lits, n, consts, PassTo(lits, consts, n), at)
  {
    if n == 0 {
      at := [0];
    } else {
      at := PassMeaning(lits, consts, n - 1);
      var front, more := PassTo(lits, consts, n - 1), Spelled(lits[n - 1], consts);
      var add := [lits[n - 1]] + if more.Some? then [more.value] else [];
      assert PassTo(lits, consts, n) == front + add;
      SpelledIsFollowed(front + add, |front|, lits[n - 1], consts);
      SpreadNext(lits, n - 1, consts, front, at, add);
      at := at + [|front + add|];
    }
  }

  /** The positions behind identifiers, among the first `n` literals, that name a constant, with what
      to insert there. */
  function InsertionsTo(lits: seq<ArgLit>, consts: seq<(string, string)>, n: nat): seq<(nat, ArgLit)>
    requires n <= |lits|
  {
    if n == 0 then []
    else
      var more := Spelled(lits[n - 1], consts);
      InsertionsTo(lits, consts, n - 1) + (if more.Some? then [(n, more.value)] else [])
  }

  function InsertAt(lits: seq<ArgLit>, at: nat, lit: ArgLit): seq<ArgLit>
    requires at <= |lits|
  {
    lits[..at] + [lit] + lits[at..]
  }

  /** Insertion `k` lies behind a literal that names a constant, and closes the first `k + 1`. */
  lemma {:induction false} InsertionAt(lits: seq<ArgLit>, consts: seq<(string, string)>, n: nat, k: nat)
    requires n <= |lits| && k < |InsertionsTo(lits, consts, n)|
    ensures var (at, lit) := InsertionsTo(lits, consts, n)[k];
            && 1 <= at <= n
            && |InsertionsTo(lits, consts, at)| == k + 1
            && Spelled(lits[at - 1], consts) == Some(lit)
  {
    if k < |InsertionsTo(lits, consts, n - 1)| {
      InsertionAt(lits, consts, n - 1, k);
    }
  }

  lemma {:induction false} InsertionsGrow(lits: seq<ArgLit>, consts: seq<(string, string)>, i: nat, n: nat)
    requires i <= n <= |lits|
    ensures |InsertionsTo(lits, consts, i)| <= |InsertionsTo(lits, consts, n)|
  {
    if i < n { InsertionsGrow(lits, consts, i, n - 1); }
  }

  lemma {:induction false} PassLength(lits: seq<ArgLit>, consts: seq<(string, string)>, n: nat)
    requires n <= |lits|
    ensures |PassTo(lits, consts, n)| == n + |InsertionsTo(lits, consts, n)|
  {
    if n > 0 { PassLength(lits, consts, n - 1); }
  }

  /** Literals without an insertion behind them pass unchanged. */
  lemma {:induction false} PassOver(lits: seq<ArgLit>, consts: seq<(string, string)>, i: nat, n: nat)
    requires i <= n <= |lits| && |InsertionsTo(lits, consts, n)| == |InsertionsTo(lits, consts, i)|
    ensures PassTo(lits, consts, n) == PassTo(lits, consts, i) + lits[i..n]
  {
    if i < n {
      InsertionsGrow(lits, consts, i, n - 1);
      PassOver(lits, consts, i, n - 1);
      Regroup(PassTo(lits, consts, i), lits[i..n - 1], [lits[n - 1]]);
      assert lits[i..n] == lits[i..n - 1] + [lits[n - 1]];
    }
  }

  method CollectInsertions(lits: seq<ArgLit>, consts: seq<(string, string)>) returns (insertions: seq<(nat, ArgLit)>)
    ensures insertions == InsertionsTo(lits, consts, |lits|)
  {
    insertions := [];
    for i := 0 to |lits|
      invariant insertions == InsertionsTo(lits, consts, i)
    {
      var more := Spelled(lits[i], consts);
      if more.Some? {
        insertions := insertions + [(i + 1, more.value)];
      }
    }
  }

  /** The list when the insertions up to position `done` have been made. */
  function Partly(lits: seq<ArgLit>, consts: seq<(string, string)>, done: nat): seq<ArgLit>
    requires done <= |lits|
  {
    PassTo(lits, consts, done) + lits[done..]
  }

  /** Position and literal of insertion `k`. */
  ghost predicate Placed(lits: seq<ArgLit>, consts: seq<(string, string)>, at: nat, lit: ArgLit, k: nat) {
    1 <= at <= |lits| && |InsertionsTo(lits, consts, at)| == k + 1 && Spelled(lits[at - 1], consts) == Some(lit)
  }

  /** Inserting in place, with a running offset, is the one pass. */
  method SubstituteConsts(lits0: seq<ArgLit>, consts: seq<(string, string)>) returns (lits: seq<ArgLit>)
    ensures lits == OnePass(lits0, consts)
  {
    var insertions := CollectInsertions(lits0, consts);
    forall k | 0 <= k < |insertions|
      ensures Placed(lits0, consts, insertions[k].0, insertions[k].1, k)
    {
      InsertionAt(lits0, consts, |lits0|, k);
    }
    lits := InsertAll(lits0, consts, insertions);
  }

  method InsertAll(lits0: seq<ArgLit>, ghost consts: seq<(string, string)>, insertions: seq<(nat, ArgLit)>)
    returns (lits: seq<ArgLit>)
    requires |insertions| == |InsertionsTo(lits0, consts, |lits0|)|
    requires forall k :: 0 <= k < |insertions| ==> Placed(lits0, consts, insertions[k].0, insertions[k].1, k)
    ensures lits == OnePass(lits0, consts)
  {
    lits := lits0;
    ghost var done: nat := 0;
    NothingDone(lits0, consts);
    for offset := 0 to |insertions|
      invariant done <= |lits0| && |InsertionsTo(lits0, consts, done)| == offset
      invariant lits == Partly(lits0, consts, done)
    {
      var (at, lit) := insertions[offset];
      Advance(lits0, consts, done, at, lit, offset);
      lits := InsertAt(lits, at + offset, lit);
      done := at;
    }
    AllDone(lits0, consts, done);
  }

  lemma NothingDone(lits: seq<ArgLit>, consts: seq<(string, string)>)
    ensures Partly(lits, consts, 0) == lits
  {
    assert [] + lits[0..] == lits;
  }

  lemma AllDone(lits: seq<ArgLit>, consts: seq<(string, string)>, done: nat)
    requires done <= |lits| && |InsertionsTo(lits, consts, done)| == |InsertionsTo(lits, consts, |lits|)|
    ensures Partly(lits, consts, done) == OnePass(lits, consts)
  {
    PassOver(lits, consts, done, |lits|);
    assert lits[done..|lits|] == lits[done..];
  }

  /** From one insertion to the next, which lies as many places further on as insertions were made. */
  lemma Advance(lits: seq<ArgLit>, consts: seq<(string, string)>, done: nat, at: nat, lit: ArgLit, k: nat)
    requires done <= |lits| && |InsertionsTo(lits, consts, done)| == k && Placed(lits, consts, at, lit, k)
    ensures at <= |lits| && |InsertionsTo(lits, consts, at)| == k + 1
    ensures at + k <= |Partly(lits, consts, done)|
    ensures InsertAt(Partly(lits, consts, done), at + k, lit) == Partly(lits, consts, at)
  {
    if done >= at {
      InsertionsGrow(lits, consts, at, done);
    }
    Reaches(lits, consts, done, at);
    PassLength(lits, consts, at - 1);
    InsertBetween(PassTo(lits, consts, at - 1) + [lits[at - 1]], lits[at..], lit);
  }

  /** Before the insertion, what lies in front of it has passed. */
  lemma Reaches(lits: seq<ArgLit>, consts: seq<(string, string)>, done: nat, at: nat)
    requires done < at <= |lits|
    requires |InsertionsTo(lits, consts, done)| == |InsertionsTo(lits, consts, at - 1)|
    ensures Partly(lits, consts, done) == PassTo(lits, consts, at - 1) + [lits[at - 1]] + lits[at..]
  {
    PassOver(lits, consts, done, at - 1);
    Parts(lits, done, at);
    Regroup(PassTo(lits, consts, done), lits[done..at - 1], [lits[at - 1]]);
    Regroup(PassTo(lits, consts, done), lits[done..at - 1] + [lits[at - 1]], lits[at..]);
  }

  lemma Parts<T>(s: seq<T>, done: nat, at: nat)
    requires done < at <= |s|
    ensures s[done..] == s[done..at - 1] + [s[at - 1]] + s[at..]
  {
  }

  lemma InsertBetween(a: seq<ArgLit>, b: seq<ArgLit>, lit: ArgLit)
    ensures InsertAt(a + b, |a|, lit) == a + [lit] + b
  {
    assert (a + b)[..|a|] == a && (a + b)[|a|..] == b;
  }
}
