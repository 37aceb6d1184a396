/** Splitting identifiers into lowercase words, on ASCII input: at changes of case upwards, at the ends
    of acronyms, and between letters and digits. The loop is a state machine; the words it finds are
    said again by place alone, and come back from what is joined of them. */
module SplitWords {
  import opened Common

  datatype Kind = Lower | Upper | Digit | Other

  function KindOf(c: char): Kind {
    if 'a' <= c <= 'z' then Lower
    else if 'A' <= c <= 'Z' then Upper
    else if '0' <= c <= '9' then Digit
    else Other
  }

  function ToLower(c: char): char {
    if 'A' <= c <= 'Z' then (c as int + 32) as char else c
  }

  /** What counts as a small letter, a capital and a digit. */
  lemma KindsAre(c: char)
    ensures KindOf(c) == Lower <==> c in "abcdefghijklmnopqrstuvwxyz"
    ensures KindOf(c) == Upper <==> c in "ABCDEFGHIJKLMNOPQRSTUVWXYZ"
    ensures KindOf(c) == Digit <==> c in "0123456789"
  {
    SmallLetters(c);
    Capitals(c);
    Numerals(c);
  }

  /** Capitals become the small letters of the same place; other characters stay. */
  lemma LowerCase(c: char, i: nat)
    ensures c !in "ABCDEFGHIJKLMNOPQRSTUVWXYZ" ==> ToLower(c) == c
    ensures i < 26 ==> ToLower("ABCDEFGHIJKLMNOPQRSTUVWXYZ"[i]) == "abcdefghijklmnopqrstuvwxyz"[i]
  {
    Capitals(c);
  }

  /** The words cut so far, the one being built, and the kinds of the last two characters read. */
  datatype State = State(words: seq<string>, cur: string, last: Kind, prior: Kind)

  const START: State := State([], "", Other, Other)

  function Flush(st: State): State {
    if st.cur == "" then st else st.(words := st.words + [st.cur], cur := "")
  }

  /** Where a small letter ends an acronym: the last letter so far opens the next word. */
  function CutAcronym(st: State): State
    requires st.cur != ""
  {
    var n := |st.cur| - 1;
    Flush(st.(cur := st.cur[..n])).(cur := st.cur[n..])
  }

  predicate IsLetter(k: Kind) {
    k == Lower || k == Upper
  }

  predicate Boundary(last: Kind, k: Kind) {
    (last == Lower && k == Upper) || (last == Digit && IsLetter(k)) || (IsLetter(last) && k == Digit)
  }

  /** Room made for a letter or digit. */
  function Prepared(st: State, k: Kind): State {
    if st.cur == "" then st
    else if Boundary(st.last, k) then Flush(st)
    else if st.last == Upper && k == Lower && st.prior == Upper then CutAcronym(st)
    else st
  }

  function Next(st: State, c: char): State {
    var k := KindOf(c);
    var r := if k == Other then Flush(st) else Prepared(st, k).(cur := Prepared(st, k).cur + [ToLower(c)]);
    r.(last := k, prior := st.last)
  }

  function Run(st: State, s: string): State
    decreases |s|
  {
    if s == "" then st else Run(Next(st, s[0]), s[1..])
  }

  function Words(s: string): seq<string> {
    Flush(Run(START, s)).words
  }

  method Split(s: string) returns (words: seq<string>)
    ensures words == Words(s)
  {
    words := [];
    var cur := "";
    assert s[0..] == s;
    ghost var st := START;
    for i := 0 to |s|
      invariant st.words == words && st.cur == cur
      invariant i >= 1 ==> st.last == KindOf(s[i - 1])
      invariant st.prior == if i >= 2 then KindOf(s[i - 2]) else Other
      invariant i == 0 ==> cur == "" && st.last == Other
      invariant Run(st, s[i..]) == Run(START, s)
    {
      var c := s[i];
      var k := KindOf(c);
      ghost var next := Next(st, c);
      assert s[i..][0] == c && s[i..][1..] == s[i + 1..];
      if k == Other {
        if cur != "" {
          words := words + [cur];
          cur := "";
        }
        st := next;
        continue;
      }
      if cur != "" {
        var prev := KindOf(s[i - 1]);
        if prev == Upper && k == Lower {
          if i >= 2 && KindOf(s[i - 2]) == Upper {
            var tail := cur[|cur| - 1..];
            cur := cur[..|cur| - 1];
            if cur != "" {
              words := words + [cur];
            }
            cur := tail;
          }
        }
        if (prev == Lower && k == Upper) || (prev == Digit && IsLetter(k)) || (IsLetter(prev) && k == Digit) {
          words := words + [cur];
          cur := "";
        }
      }
      cur := cur + [ToLower(c)];
      st := next;
    }
    if cur != "" {
      words := words + [cur];
    }
  }

  lemma {:induction false} RunConcat(st: State, a: string, b: string)
    ensures Run(st, a + b) == Run(Run(st, a), b)
    decreases |a|
  {
    if a == "" {
      assert a + b == b;
    } else {
      RunConcat(Next(st, a[0]), a[1..], b);
      assert (a + b)[0] == a[0] && (a + b)[1..] == a[1..] + b;
    }
  }

  // ---- What the words are ----

  ghost predicate AllOf(w: string, k: Kind) {
    forall i :: 0 <= i < |w| ==> KindOf(w[i]) == k
  }

  /** Lowercase letters only, or digits only. */
  ghost predicate Uniform(w: string) {
    AllOf(w, Lower) || AllOf(w, Digit)
  }

  ghost predicate Word(w: string) {
    w != "" && Uniform(w)
  }

  ghost predicate AllWords(words: seq<string>) {
    forall i :: 0 <= i < |words| ==> Word(words[i])
  }

  function Concat(words: seq<string>): string {
    if words == [] then "" else Concat(words[..|words| - 1]) + words[|words| - 1]
  }

  /** Everything read so far, without what was dropped. */
  function Text(st: State): string {
    Concat(st.words) + st.cur
  }

  /** The letters and digits of the input, in lower case. */
  function Alphanumerics(s: string): string {
    if s == "" then ""
    else (if KindOf(s[0]) == Other then "" else [ToLower(s[0])]) + Alphanumerics(s[1..])
  }

  lemma PushWord(words: seq<string>, w: string)
    requires AllWords(words) && Word(w)
    ensures AllWords(words + [w])
  {
    forall i | 0 <= i < |words + [w]|
      ensures Word((words + [w])[i])
    {
      if i < |words| {
        assert (words + [w])[i] == words[i];
      }
    }
  }

  /** The words are proper words, and so is the one being built; its kind is that of the last
      character read. */
  ghost predicate Sound(st: State) {
    && AllWords(st.words)
    && (if st.last == Other then st.cur == ""
        else st.cur != "" && AllOf(st.cur, if st.last == Digit then Digit else Lower))
  }

  lemma FlushSound(st: State)
    requires AllWords(st.words) && Uniform(st.cur)
    ensures AllWords(Flush(st).words) && Flush(st).cur == "" && Text(Flush(st)) == Text(st)
  {
    if st.cur != "" {
      PushWord(st.words, st.cur);
      var all := Concat(st.words + [st.cur]);
      assert all + "" == all;
    }
  }

  lemma CutSound(st: State)
    requires AllWords(st.words) && st.cur != "" && AllOf(st.cur, Lower)
    ensures AllWords(CutAcronym(st).words) && Text(CutAcronym(st)) == Text(st)
    ensures AllOf(CutAcronym(st).cur, Lower) && CutAcronym(st).cur != ""
  {
    var n := |st.cur| - 1;
    var head, tail := st.cur[..n], st.cur[n..];
    assert AllOf(head, Lower);
    FlushSound(st.(cur := head));
    var flushed := Flush(st.(cur := head));
    assert Concat(flushed.words) + "" == Concat(flushed.words);
    assert st.cur == head + tail;
    Regroup(Concat(st.words), head, tail);
  }

  lemma PreparedSound(st: State, k: Kind)
    requires Sound(st) && k != Other
    ensures var r := Prepared(st, k);
            && AllWords(r.words) && Text(r) == Text(st)
            && AllOf(r.cur, if k == Digit then Digit else Lower)
  {
    if st.cur != "" {
      if Boundary(st.last, k) {
        FlushSound(st);
      } else if st.last == Upper && k == Lower && st.prior == Upper {
        CutSound(st);
      }
    }
  }

  lemma NextSound(st: State, c: char)
    requires Sound(st)
    ensures Sound(Next(st, c))
    ensures Text(Next(st, c)) == Text(st) + (if KindOf(c) == Other then "" else [ToLower(c)])
  {
    var k := KindOf(c);
    if k == Other {
      FlushSound(st);
      assert Text(st) + "" == Text(st);
    } else {
      PreparedSound(st, k);
      var r := Prepared(st, k);
      Regroup(Concat(r.words), r.cur, [ToLower(c)]);
    }
  }

  lemma {:induction false} RunSound(st: State, s: string)
    requires Sound(st)
    ensures Sound(Run(st, s)) && Text(Run(st, s)) == Text(st) + Alphanumerics(s)
    decreases |s|
  {
    if s == "" {
      assert Text(st) + "" == Text(st);
    } else {
      NextSound(st, s[0]);
      RunSound(Next(st, s[0]), s[1..]);
      Regroup(Text(st), if KindOf(s[0]) == Other then "" else [ToLower(s[0])], Alphanumerics(s[1..]));
    }
  }

  /** Words are not empty, each is all letters or all digits, and together they are the letters and
      digits of the input in lower case. */
  lemma WordsAreCanonical(s: string)
    ensures AllWords(Words(s))
    ensures Concat(Words(s)) == Alphanumerics(s)
  {
    RunSound(START, s);
    var st := Run(START, s);
    FlushSound(st);
    assert Concat(Words(s)) + "" == Concat(Words(s));
    assert Text(START) == "";
    assert "" + Alphanumerics(s) == Alphanumerics(s);
  }

  // ---- Where the words are cut ----

  predicate Alnum(s: string, i: nat) {
    i < |s| && KindOf(s[i]) != Other
  }

  predicate Is(s: string, i: nat, k: Kind) {
    i < |s| && KindOf(s[i]) == k
  }

  /** A new word starts at `i`, right behind another: at a change of case upwards, between letters and
      digits, and at the last capital of an acronym that a small letter follows. */
  predicate CutBefore(s: string, i: nat)
    requires 1 <= i < |s|
  {
    || Boundary(KindOf(s[i - 1]), KindOf(s[i]))
    || (Is(s, i - 1, Upper) && Is(s, i, Upper) && Is(s, i + 1, Lower))
  }

  /** `w` in front of the first word. */
  function Onto(w: string, words: seq<string>): seq<string>
    requires words != []
  {
    [w + words[0]] + words[1..]
  }

  /** The words from position `i` on, cut by place alone. */
  function WordsFrom(s: string, i: nat): (r: seq<string>)
    requires i <= |s|
    ensures Alnum(s, i) ==> r != []
    decreases |s| - i
  {
    if i == |s| then []
    else if KindOf(s[i]) == Other then WordsFrom(s, i + 1)
    else if Alnum(s, i + 1) && !CutBefore(s, i + 1) then Onto([ToLower(s[i])], WordsFrom(s, i + 1))
    else [[ToLower(s[i])]] + WordsFrom(s, i + 1)
  }

  /** A small letter at `i` ends an acronym. */
  predicate EndsAcronym(s: string, i: nat) {
    i >= 2 && Is(s, i, Lower) && Is(s, i - 1, Upper) && Is(s, i - 2, Upper)
  }

  /** The words from the one being built on, when the rest is read from `i`. */
  function Onward(cur: string, s: string, i: nat): seq<string>
    requires i <= |s| && (i == 0 ==> cur == "")
  {
    if cur == "" then WordsFrom(s, i)
    else if EndsAcronym(s, i) then [cur[..|cur| - 1]] + Onto(cur[|cur| - 1..], WordsFrom(s, i))
    else if Alnum(s, i) && !CutBefore(s, i) then Onto(cur, WordsFrom(s, i))
    else [cur] + WordsFrom(s, i)
  }

  /** `st` is what reading the first `i` characters can lead to. */
  ghost predicate ReadUpTo(st: State, s: string, i: nat)
    requires i <= |s|
  {
    && st.last == (if i >= 1 then KindOf(s[i - 1]) else Other)
    && st.prior == (if i >= 2 then KindOf(s[i - 2]) else Other)
    && (st.cur == "" <==> st.last == Other)
    && (st.last == Upper && st.prior == Upper ==> |st.cur| >= 2)
  }

  lemma OntoJoins(x: string, y: string, words: seq<string>)
    requires words != []
    ensures Onto(x + y, words) == Onto(x, Onto(y, words))
    ensures [x + y] + words == Onto(x, [y] + words)
  {
    Regroup(x, y, words[0]);
  }

  lemma JoinedOnward(x: string, c: char, s: string, i: nat)
    requires i <= |s| && i > 0 && !EndsAcronym(s, i)
    ensures Onward([c], s, i) != []
    ensures Onward(x + [c], s, i) == Onto(x, Onward([c], s, i))
  {
    var rest := WordsFrom(s, i);
    if Alnum(s, i) && !CutBefore(s, i) {
      OntoJoins(x, [c], rest);
    } else {
      assert ([[c]] + rest)[1..] == rest;
    }
  }

  lemma {:induction false} SeparatorOnward(st: State, s: string, i: nat)
    requires i < |s| && ReadUpTo(st, s, i) && KindOf(s[i]) == Other
    ensures st.words + Onward(st.cur, s, i) == Next(st, s[i]).words + Onward(Next(st, s[i]).cur, s, i + 1)
  {
    if st.cur != "" {
      Regroup(st.words, [st.cur], WordsFrom(s, i + 1));
    }
  }

  lemma {:induction false} FirstOnward(st: State, s: string, i: nat)
    requires i < |s| && ReadUpTo(st, s, i) && KindOf(s[i]) != Other && st.cur == ""
    ensures st.words + Onward(st.cur, s, i) == Next(st, s[i]).words + Onward(Next(st, s[i]).cur, s, i + 1)
  {
    assert "" + [ToLower(s[i])] == [ToLower(s[i])];
    HereOnward(s, i);
  }

  /** The words from a letter or digit on. */
  lemma {:induction false} HereOnward(s: string, i: nat)
    requires Alnum(s, i) && !EndsAcronym(s, i + 1)
    ensures WordsFrom(s, i) == Onward([ToLower(s[i])], s, i + 1)
  {
  }

  lemma {:induction false} BoundaryOnward(st: State, s: string, i: nat)
    requires i < |s| && ReadUpTo(st, s, i) && KindOf(s[i]) != Other && st.cur != ""
    requires Boundary(st.last, KindOf(s[i]))
    ensures st.words + Onward(st.cur, s, i) == Next(st, s[i]).words + Onward(Next(st, s[i]).cur, s, i + 1)
  {
    var c := ToLower(s[i]);
    assert "" + [c] == [c];
    assert Next(st, s[i]).words == st.words + [st.cur] && Next(st, s[i]).cur == [c];
    assert CutBefore(s, i) && !EndsAcronym(s, i);
    HereOnward(s, i);
    Regroup(st.words, [st.cur], WordsFrom(s, i));
  }

  lemma {:induction false} AcronymOnward(st: State, s: string, i: nat)
    requires i < |s| && ReadUpTo(st, s, i) && EndsAcronym(s, i)
    ensures st.words + Onward(st.cur, s, i) == Next(st, s[i]).words + Onward(Next(st, s[i]).cur, s, i + 1)
  {
    var n := |st.cur| - 1;
    HereOnward(s, i);
    JoinedOnward(st.cur[n..], ToLower(s[i]), s, i + 1);
    Regroup(st.words, [st.cur[..n]], Onto(st.cur[n..], WordsFrom(s, i)));
  }

  lemma {:induction false} GrowingOnward(st: State, s: string, i: nat)
    requires i < |s| && ReadUpTo(st, s, i) && KindOf(s[i]) != Other && st.cur != ""
    requires !Boundary(st.last, KindOf(s[i])) && !EndsAcronym(s, i)
    ensures st.words + Onward(st.cur, s, i) == Next(st, s[i]).words + Onward(Next(st, s[i]).cur, s, i + 1)
  {
    var c := ToLower(s[i]);
    var grown := st.cur + [c];
    assert Next(st, s[i]).words == st.words && Next(st, s[i]).cur == grown;
    if EndsAcronym(s, i + 1) {
      assert CutBefore(s, i) && !CutBefore(s, i + 1);
      assert grown[..|grown| - 1] == st.cur && grown[|grown| - 1..] == [c];
    } else {
      assert !CutBefore(s, i);
      HereOnward(s, i);
      JoinedOnward(st.cur, c, s, i + 1);
    }
  }

  lemma {:induction false} OneOnward(st: State, s: string, i: nat)
    requires i < |s| && ReadUpTo(st, s, i)
    ensures st.words + Onward(st.cur, s, i) == Next(st, s[i]).words + Onward(Next(st, s[i]).cur, s, i + 1)
  {
    if KindOf(s[i]) == Other {
      SeparatorOnward(st, s, i);
    } else if st.cur == "" {
      FirstOnward(st, s, i);
    } else if Boundary(st.last, KindOf(s[i])) {
      BoundaryOnward(st, s, i);
    } else if EndsAcronym(s, i) {
      AcronymOnward(st, s, i);
    } else {
      GrowingOnward(st, s, i);
    }
  }

  lemma {:induction false} ReadNext(st: State, s: string, i: nat)
    requires i < |s| && ReadUpTo(st, s, i)
    ensures ReadUpTo(Next(st, s[i]), s, i + 1)
  {
  }

  lemma {:induction false} RunFirst(st: State, s: string, i: nat)
    requires i < |s|
    ensures Run(st, s[i..]) == Run(Next(st, s[i]), s[i + 1..])
  {
    assert s[i..][0] == s[i] && s[i..][1..] == s[i + 1..];
  }

  lemma {:induction false} RunOnward(st: State, s: string, i: nat)
    requires i <= |s| && ReadUpTo(st, s, i)
    ensures Flush(Run(st, s[i..])).words == st.words + Onward(st.cur, s, i)
    decreases |s| - i
  {
    if i == |s| {
      assert st.words + [] == st.words && [st.cur] + [] == [st.cur];
    } else {
      RunFirst(st, s, i);
      RunOnward(Next(st, s[i]), s, i + 1);
      ReadNext(st, s, i);
      OneOnward(st, s, i);
    }
  }

  /** Reading once from left to right, with the last letter moved on when an acronym ends, is cutting
      at the places that `CutBefore` names. */
  lemma WordsByPlace(s: string)
    ensures Words(s) == WordsFrom(s, 0)
  {
    RunOnward(START, s, 0);
    assert s[0..] == s;
  }

  // ---- Splitting what was joined ----

  /** Small letters or digits that follow their own kind join the word being built. */
  lemma {:induction false} ReadOn(st: State, w: string, k: Kind)
    requires (k == Lower || k == Digit) && AllOf(w, k) && st.cur != "" && st.last == k
    ensures var r := Run(st, w); r.words == st.words && r.cur == st.cur + w && r.last == k
    decreases |w|
  {
    if w == "" {
      assert st.cur + w == st.cur;
    } else {
      assert KindOf(w[0]) == k && ToLower(w[0]) == w[0];
      assert AllOf(w[1..], k);
      ReadOn(Next(st, w[0]), w[1..], k);
      Regroup(st.cur, [w[0]], w[1..]);
      assert [w[0]] + w[1..] == w;
    }
  }

  /** A word at the start, or after a separator. */
  lemma ReadWord(st: State, w: string)
    requires Word(w) && st.cur == ""
    ensures var r := Run(st, w); r.words == st.words && r.cur == w && (r.last == Lower || r.last == Digit)
    ensures AllOf(w, Lower) ==> Run(st, w).last == Lower
  {
    var k := KindOf(w[0]);
    assert k == Lower || k == Digit;
    assert AllOf(w[1..], k);
    assert "" + [w[0]] == [w[0]];
    ReadOn(Next(st, w[0]), w[1..], k);
    assert [w[0]] + w[1..] == w;
  }

  /** The words with an underscore between them. */
  function Snake(words: seq<string>): string {
    if words == [] then ""
    else if |words| == 1 then words[0]
    else Snake(words[..|words| - 1]) + "_" + words[|words| - 1]
  }

  /** Reading ends in the last word, with the words before it cut. */
  ghost predicate EndsIn(st: State, words: seq<string>)
    requires words != []
  {
    st.words == words[..|words| - 1] && st.cur == words[|words| - 1]
  }

  lemma {:induction false} SnakeReads(words: seq<string>)
    requires AllWords(words) && words != []
    ensures EndsIn(Run(START, Snake(words)), words)
  {
    var k := |words| - 1;
    var w := words[k];
    assert Word(w);
    if k == 0 {
      ReadWord(START, w);
    } else {
      var front := words[..k];
      assert AllWords(front);
      SnakeReads(front);
      var st := Run(START, Snake(front));
      assert front[..k - 1] + [front[k - 1]] == front && Word(words[k - 1]);
      RunConcat(START, Snake(front) + "_", w);
      RunConcat(START, Snake(front), "_");
      assert Run(st, "_") == Next(st, '_') by { assert "_"[1..] == ""; }
      ReadWord(Next(st, '_'), w);
    }
  }

  lemma FlushedWords(st: State, words: seq<string>)
    requires words != [] && words[|words| - 1] != "" && EndsIn(st, words)
    ensures Flush(st).words == words
  {
    assert words == words[..|words| - 1] + [words[|words| - 1]];
  }

  /** Splitting words joined by underscores gives them back. */
  lemma SnakeRoundTrip(words: seq<string>)
    requires AllWords(words)
    ensures Words(Snake(words)) == words
  {
    if words != [] {
      SnakeReads(words);
      assert Word(words[|words| - 1]);
      FlushedWords(Run(START, Snake(words)), words);
    }
  }

  // ---- camelCase ----

  ghost predicate Letters(words: seq<string>) {
    forall i :: 0 <= i < |words| ==> words[i] != "" && AllOf(words[i], Lower)
  }

  function ToUpper(c: char): char {
    if 'a' <= c <= 'z' then (c as int - 32) as char else c
  }

  function Capitalized(w: string): string {
    if w == "" then "" else [ToUpper(w[0])] + w[1..]
  }

  /** The first word as it is, every other with a capital. */
  function Camel(words: seq<string>): string {
    if words == [] then ""
    else if |words| == 1 then words[0]
    else Camel(words[..|words| - 1]) + Capitalized(words[|words| - 1])
  }

  /** Two single letters in a row, behind the first word. */
  ghost predicate Runs(words: seq<string>, k: nat) {
    1 <= k && k + 1 < |words| && |words[k]| == 1 && |words[k + 1]| == 1
  }

  /** A capital and a small letter open a new word: the first cuts behind a small letter, the second in
      front of the capital when that followed another. */
  lemma OpensWord(st: State, u: char, c: char)
    requires KindOf(u) == Upper && KindOf(c) == Lower && st.cur != "" && IsLetter(st.last)
    ensures var r := Next(Next(st, u), c);
            r.words == st.words + [st.cur] && r.cur == [ToLower(u)] + [c] && r.last == Lower
  {
    var l := ToLower(u);
    if st.last == Lower {
      assert "" + [l] == [l];
    } else {
      assert (st.cur + [l])[..|st.cur|] == st.cur && (st.cur + [l])[|st.cur|..] == [l];
    }
  }

  /** A capitalised word of two or more letters opens a new word, whatever word came before it. */
  lemma {:induction false} ReadCapitalized(st: State, w: string)
    requires |w| >= 2 && AllOf(w, Lower) && st.cur != "" && IsLetter(st.last)
    ensures var r := Run(st, Capitalized(w)); r.words == st.words + [st.cur] && r.cur == w && r.last == Lower
  {
    var c, u := w[1], ToUpper(w[0]);
    var x := Capitalized(w);
    assert KindOf(w[0]) == Lower && KindOf(c) == Lower;
    assert KindOf(u) == Upper && ToLower(u) == w[0] && ToLower(c) == c;
    assert x[0] == u && x[1..] == w[1..] && w[1..][0] == c && w[1..][1..] == w[2..];
    var second := Next(Next(st, u), c);
    OpensWord(st, u, c);
    assert AllOf(w[2..], Lower);
    ReadOn(second, w[2..], Lower);
    assert [w[0]] + [c] + w[2..] == w;
  }

  /** A single capital opens a word behind a small letter, and joins the acronym behind a capital. */
  lemma ReadCapital(st: State, w: string)
    requires |w| == 1 && AllOf(w, Lower) && st.cur != "" && IsLetter(st.last)
    ensures var r := Run(st, Capitalized(w));
            && r.last == Upper
            && (if st.last == Lower then r.words == st.words + [st.cur] && r.cur == w
                else r.words == st.words && r.cur == st.cur + w)
  {
    var u := ToUpper(w[0]);
    assert KindOf(w[0]) == Lower && KindOf(u) == Upper && ToLower(u) == w[0];
    assert w == [w[0]] && Capitalized(w) == [u] && [u][1..] == "";
    assert "" + w == w;
  }

  lemma CamelStep(words: seq<string>)
    requires |words| > 1
    ensures Run(START, Camel(words)) ==
            Run(Run(START, Camel(words[..|words| - 1])), Capitalized(words[|words| - 1]))
  {
    RunConcat(START, Camel(words[..|words| - 1]), Capitalized(words[|words| - 1]));
  }

  /** One more word, where no single letters run together. */
  lemma CamelExtends(st: State, front: seq<string>, w: string)
    requires front != [] && EndsIn(st, front) && st.cur != "" && IsLetter(st.last)
    requires w != "" && AllOf(w, Lower) && (|w| == 1 ==> st.last == Lower)
    ensures var r := Run(st, Capitalized(w));
            && EndsIn(r, front + [w])
            && r.last == if |w| == 1 then Upper else Lower
  {
    assert front[..|front| - 1] + [front[|front| - 1]] == front;
    assert (front + [w])[..|front|] == front;
    if |w| >= 2 {
      ReadCapitalized(st, w);
    } else {
      ReadCapital(st, w);
    }
  }

  /** As long as no single letters run together, reading ends in the last word with the words before
      it cut; the last letter read is a capital if that word is a single letter. */
  lemma {:induction false} CamelReads(words: seq<string>)
    requires Letters(words) && words != []
    requires forall k :: 0 <= k < |words| ==> !Runs(words, k)
    ensures var st := Run(START, Camel(words));
            && EndsIn(st, words)
            && st.last == (if |words| > 1 && |words[|words| - 1]| == 1 then Upper else Lower)
  {
    var k := |words| - 1;
    var w := words[k];
    if k == 0 {
      ReadWord(START, w);
    } else {
      var front := words[..k];
      assert Letters(front);
      NoRunsBefore(words, k);
      CamelReads(front);
      assert !Runs(words, k - 1);
      assert words == front + [w];
      CamelExtends(Run(START, Camel(front)), front, w);
      CamelStep(words);
    }
  }

  lemma NoRunsBefore(words: seq<string>, n: nat)
    requires n <= |words| && forall k :: 0 <= k && k + 1 < n ==> !Runs(words, k)
    ensures forall k :: 0 <= k < |words[..n]| ==> !Runs(words[..n], k)
  {
    forall k | 0 <= k < n
      ensures !Runs(words[..n], k)
    {
      assert k + 1 < n ==> !Runs(words, k);
    }
  }

  /** The word at place `k` came out with two letters or more, or will. */
  ghost predicate RanTogether(st: State, k: nat) {
    && st.cur != "" && IsLetter(st.last)
    && (|| (|st.words| > k && |st.words[k]| >= 2)
        || (|st.words| == k && |st.cur| >= 2 && st.last == Upper))
  }

  lemma RunStays(st: State, w: string, k: nat)
    requires RanTogether(st, k) && w != "" && AllOf(w, Lower)
    ensures RanTogether(Run(st, Capitalized(w)), k)
  {
    if |w| >= 2 {
      ReadCapitalized(st, w);
    } else {
      ReadCapital(st, w);
    }
  }

  lemma SecondCapital(st: State, front: seq<string>, w: string, k: nat)
    requires |front| == k + 1 && EndsIn(st, front) && |front[k]| == 1 && st.last == Upper
    requires |w| == 1 && AllOf(w, Lower)
    ensures RanTogether(Run(st, Capitalized(w)), k)
  {
    ReadCapital(st, w);
  }

  /** Up to the first of the two single letters nothing runs together. */
  lemma FirstCapital(words: seq<string>, k: nat)
    requires Letters(words) && Runs(words, k)
    requires forall j :: 0 <= j < k ==> !Runs(words, j)
    ensures var st := Run(START, Camel(words[..k + 1])); EndsIn(st, words[..k + 1]) && st.last == Upper
  {
    var front := words[..k + 1];
    assert Letters(front);
    NoRunsBefore(words, k + 1);
    CamelReads(front);
  }

  lemma RunStarts(words: seq<string>, k: nat)
    requires Letters(words) && |words| == k + 2 && Runs(words, k)
    requires forall j :: 0 <= j < k ==> !Runs(words, j)
    ensures RanTogether(Run(START, Camel(words)), k)
  {
    FirstCapital(words, k);
    SecondCapital(Run(START, Camel(words[..k + 1])), words[..k + 1], words[k + 1], k);
    CamelStep(words);
  }

  lemma {:induction false} RunsStay(words: seq<string>, k: nat)
    requires Letters(words) && Runs(words, k)
    requires forall j :: 0 <= j < k ==> !Runs(words, j)
    ensures RanTogether(Run(START, Camel(words)), k)
    decreases |words|
  {
    if |words| == k + 2 {
      RunStarts(words, k);
    } else {
      var front := words[..|words| - 1];
      assert Letters(front) && Runs(front, k);
      forall j | 0 <= j < k
        ensures !Runs(front, j)
      {
        assert !Runs(words, j);
      }
      RunsStay(front, k);
      CamelStep(words);
      RunStays(Run(START, Camel(front)), words[|words| - 1], k);
    }
  }

  /** Splitting the camelCase form of letter words gives them back exactly when no two single-letter
      words follow each other behind the first word; so always for words of two or more letters. */
  lemma {:induction false} CamelRoundTrip(words: seq<string>)
    requires Letters(words)
    ensures Words(Camel(words)) == words <==> forall k :: 0 <= k < |words| ==> !Runs(words, k)
  {
    if words == [] {
    } else if forall k :: 0 <= k < |words| ==> !Runs(words, k) {
      CamelReads(words);
      FlushedWords(Run(START, Camel(words)), words);
    } else {
      var k := FirstRun(words, |words|);
      RunsStay(words, k);
      var st := Run(START, Camel(words));
      var out := st.words + [st.cur];
      assert Words(Camel(words)) == out;
      assert |out[k]| >= 2;
    }
  }

  lemma {:induction false} FirstRun(words: seq<string>, n: nat) returns (k: nat)
    requires exists j :: 0 <= j < n && Runs(words, j)
    ensures Runs(words, k) && forall j :: 0 <= j < k ==> !Runs(words, j)
  {
    if j :| 0 <= j < n - 1 && Runs(words, j) {
      k := FirstRun(words, n - 1);
    } else {
      k := n - 1;
    }
  }
}
