/** The touch ring: the most recent edits, at most 250 in all and 10 for any one file. */
module Touches {
  import opened Common

  const MAX_GLOBAL: nat := 250
  const MAX_PER_FILE: nat := 10

  datatype Touch = Touch(ts: nat, files: seq<string>, why: string, agent: string)

  /** A ring or a history, oldest entry first. */
  type Ring = seq<Touch>

  // ---- The trim, as a function of the entries ----

  /** How often the entries mention `f`, with repetitions. */
  function Mentions(ring: Ring, f: string): nat {
    if ring == [] then 0 else multiset(ring[0].files)[f] + Mentions(ring[1..], f)
  }

  /** May `t` join the newer entries already kept? */
  predicate Admits(kept: Ring, t: Touch) {
    |kept| < MAX_GLOBAL && forall f :: f in t.files ==> Mentions(kept, f) < MAX_PER_FILE
  }

  /** The entries of `older` that are kept beside `kept`, all of which are newer: the oldest is
      judged last, against everything kept that is newer than it. */
  function Added(older: Ring, kept: Ring): Ring {
    if older == [] then []
    else
      var r := Added(older[1..], kept);
      if Admits(r + kept, older[0]) then [older[0]] + r else r
  }

  function Trim(ring: Ring): Ring {
    Added(ring, [])
  }

  lemma {:induction false} AddedInTwo(a: Ring, b: Ring, kept: Ring)
    ensures Added(a + b, kept) == Added(a, Added(b, kept) + kept) + Added(b, kept)
  {
    if a == [] {
      assert a + b == b;
    } else {
      AddedInTwo(a[1..], b, kept);
      var k := Added(b, kept);
      var r := Added(a[1..], k + kept);
      assert (a + b)[1..] == a[1..] + b && (a + b)[0] == a[0];
      Regroup(r, k, kept);
      Regroup([a[0]], r, k);
    }
  }

  /** A history is trimmed newest part first. */
  lemma TrimInTwo(a: Ring, b: Ring)
    ensures Trim(a + b) == Added(a, Trim(b)) + Trim(b)
  {
    AddedInTwo(a, b, []);
    assert Added(b, []) + [] == Added(b, []);
  }

  // ---- The loop ----

  function Count(counts: map<string, nat>, f: string): nat {
    if f in counts then counts[f] else 0
  }

  method CountFiles(counts0: map<string, nat>, files: seq<string>) returns (counts: map<string, nat>)
    ensures forall f :: Count(counts, f) == Count(counts0, f) + multiset(files)[f]
  {
    counts := counts0;
    for k := 0 to |files|
      invariant forall f :: Count(counts, f) == Count(counts0, f) + multiset(files[..k])[f]
    {
      assert files[..k + 1] == files[..k] + [files[k]];
      counts := counts[files[k] := Count(counts, files[k]) + 1];
    }
    assert files[..|files|] == files;
  }

  /** Newest entry first, counting mentions, reversed at the end. */
  method TrimRing(entries: Ring) returns (kept: Ring)
    ensures kept == Trim(entries)
  {
    var counts: map<string, nat> := map[];
    var newest: seq<Touch> := [];
    var i := |entries|;
    assert entries[i..] == [];
    while i > 0
      invariant 0 <= i <= |entries|
      invariant Reversed(newest) == Trim(entries[i..])
      invariant forall f :: Count(counts, f) == Mentions(Trim(entries[i..]), f)
      decreases i
    {
      ghost var ring := Trim(entries[i..]);
      i := i - 1;
      var t := entries[i];
      assert entries[i..] == [t] + entries[i + 1..];
      assert ring + [] == ring;
      ReversedLength(newest);
      if |newest| >= MAX_GLOBAL {
        AddedToFull(entries[..i + 1], ring);
        assert entries == entries[..i + 1] + entries[i + 1..];
        TrimInTwo(entries[..i + 1], entries[i + 1..]);
        kept := Reversed(newest);
        return;
      }
      if exists f :: f in t.files && Count(counts, f) >= MAX_PER_FILE {
        continue;
      }
      counts := CountFiles(counts, t.files);
      newest := newest + [t];
      ReversedAppend(newest[..|newest| - 1], t);
    }
    kept := Reversed(newest);
    assert entries[0..] == entries;
  }

  lemma {:induction false} AddedToFull(older: Ring, kept: Ring)
    requires |kept| >= MAX_GLOBAL
    ensures Added(older, kept) == []
  {
    if older != [] {
      AddedToFull(older[1..], kept);
      assert [] + kept == kept;
    }
  }

  // ---- Laws of the trim ----

  lemma {:induction false} TrimIdempotent(ring: Ring)
    ensures Trim(Trim(ring)) == Trim(ring)
  {
    if ring != [] {
      TrimIdempotent(ring[1..]);
      var kept := Trim(ring[1..]);
      assert kept + [] == kept;
      if Admits(kept, ring[0]) {
        assert ([ring[0]] + kept)[1..] == kept;
      }
    }
  }

  /** How many entries name `f`. */
  function Naming(ring: Ring, f: string): nat {
    if ring == [] then 0 else (if f in ring[0].files then 1 else 0) + Naming(ring[1..], f)
  }

  lemma {:induction false} NamingWithinMentions(ring: Ring, f: string)
    ensures Naming(ring, f) <= Mentions(ring, f)
  {
    if ring != [] {
      NamingWithinMentions(ring[1..], f);
      assert f in ring[0].files <==> multiset(ring[0].files)[f] >= 1;
    }
  }

  /** The caps hold of whatever the file held before. */
  lemma {:induction false} TrimCaps(ring: Ring, f: string)
    ensures |Trim(ring)| <= 250
    ensures Naming(Trim(ring), f) <= 10
  {
    if ring != [] {
      TrimCaps(ring[1..], f);
      var kept := Trim(ring[1..]);
      assert kept + [] == kept;
      if Admits(kept, ring[0]) {
        assert ([ring[0]] + kept)[1..] == kept;
        NamingWithinMentions(kept, f);
      }
    }
  }

  /** `s` keeps some of the entries of `h`, in their order. */
  ghost predicate Subsequence(s: Ring, h: Ring) {
    s == [] || (h != [] && ((s[0] == h[0] && Subsequence(s[1..], h[1..])) || Subsequence(s, h[1..])))
  }

  /** Trimming keeps entries in order, and always the newest. */
  lemma {:induction false} TrimIsSubsequence(ring: Ring)
    ensures Subsequence(Trim(ring), ring)
    ensures ring != [] ==> Trim(ring) != [] && Trim(ring)[|Trim(ring)| - 1] == ring[|ring| - 1]
  {
    if ring != [] {
      TrimIsSubsequence(ring[1..]);
      var kept := Trim(ring[1..]);
      assert kept + [] == kept;
      if Admits(kept, ring[0]) {
        assert ([ring[0]] + kept)[1..] == kept;
      }
    }
  }

  /** An entry is dropped exactly when the newer entries kept number 250 or fill the quota of one of
      its files; and what is kept of the newer entries is the newest part of the whole ring. */
  lemma DroppedForCause(ring: Ring, i: nat)
    requires i < |ring|
    ensures var newer := Trim(ring[i + 1..]);
            && Trim(ring[i..]) == (if Admits(newer, ring[i]) then [ring[i]] + newer else newer)
            && |newer| <= |Trim(ring)|
            && newer == Trim(ring)[|Trim(ring)| - |newer|..]
            && (!Admits(newer, ring[i]) <==>
                  |newer| == 250 || exists f :: f in ring[i].files && Mentions(newer, f) >= 10)
  {
    var newer := Trim(ring[i + 1..]);
    assert newer + [] == newer;
    assert ring[i..][1..] == ring[i + 1..];
    assert ring == ring[..i + 1] + ring[i + 1..];
    TrimInTwo(ring[..i + 1], ring[i + 1..]);
    TrimCaps(ring[i + 1..], "");
  }

  // ---- Trimming as you go ----

  lemma {:induction false} MentionsMore(older: Ring, kept: Ring, f: string)
    ensures Mentions(kept, f) <= Mentions(older + kept, f)
  {
    if older == [] {
      assert older + kept == kept;
    } else {
      MentionsMore(older[1..], kept, f);
      assert (older + kept)[1..] == older[1..] + kept;
    }
  }

  /** An entry kept beside more is kept beside less. */
  lemma {:induction false} AddedIsAdmitted(older: Ring, kept: Ring, t: Touch)
    requires t in Added(older, kept)
    ensures t in older && Admits(kept, t)
  {
    var r := Added(older[1..], kept);
    if t in r {
      AddedIsAdmitted(older[1..], kept, t);
    } else {
      forall f | f in t.files
        ensures Mentions(kept, f) < MAX_PER_FILE
      {
        MentionsMore(r, kept, f);
      }
    }
  }

  /** An entry left out of the history so far, although it would be kept with `later` known: the
      newer entries that used up its quota are themselves out by then. */
  ghost predicate Revived(ring: Ring, later: Ring, i: nat)
    requires i < |ring|
  {
    !Admits(Trim(ring[i + 1..]), ring[i]) && Admits(Trim(ring[i + 1..] + later), ring[i])
  }

  lemma {:induction false} NoRevivalSuffices(ring: Ring, later: Ring)
    requires forall i :: 0 <= i < |ring| ==> !Revived(ring, later, i)
    ensures Trim(Trim(ring) + later) == Trim(ring + later)
  {
    if ring == [] {
      assert Trim(ring) + later == later && ring + later == later;
    } else {
      var a, rest := ring[0], ring[1..];
      forall i | 0 <= i < |rest|
        ensures !Revived(rest, later, i)
      {
        assert rest[i + 1..] == ring[i + 2..];
        assert !Revived(ring, later, i + 1);
      }
      NoRevivalSuffices(rest, later);
      assert !Revived(ring, later, 0);
      assert (ring + later)[1..] == rest + later;
      assert Trim(rest) + [] == Trim(rest) && Trim(rest + later) + [] == Trim(rest + later);
      if Admits(Trim(rest), a) {
        assert ([a] + Trim(rest) + later)[1..] == Trim(rest) + later;
      }
    }
  }

  /** Above the newest revived entry, one ring holds that entry and the other can not. */
  lemma NewestRevivalShows(ring: Ring, later: Ring, i: nat)
    requires i < |ring| && Revived(ring, later, i)
    requires forall j :: i < j < |ring| ==> !Revived(ring, later, j)
    ensures Trim(Trim(ring) + later) != Trim(ring + later)
  {
    var a, older, newer := ring[i], ring[..i], ring[i + 1..];
    forall j | 0 <= j < |newer|
      ensures !Revived(newer, later, j)
    {
      assert newer[j + 1..] == ring[i + 1 + j + 1..];
      assert !Revived(ring, later, i + 1 + j);
    }
    NoRevivalSuffices(newer, later);
    var k := Trim(newer + later);

    // trimming once: `a` sits right above `k`
    assert ring + later == older + ([a] + (newer + later));
    TrimInTwo(older, [a] + (newer + later));
    assert ([a] + (newer + later))[1..] == newer + later;
    assert k + [] == k;
    var once := Trim(ring + later);
    assert once == Added(older, [a] + k) + ([a] + k);

    // trimming as you go: everything above `k` comes from entries that are not `a`
    assert ring == older + ([a] + newer);
    TrimInTwo(older, [a] + newer);
    assert ([a] + newer)[1..] == newer;
    assert Trim(newer) + [] == Trim(newer);
    var p := Added(older, Trim(newer));
    assert Trim(ring) == p + Trim(newer);
    assert Trim(ring) + later == p + (Trim(newer) + later);
    TrimInTwo(p, Trim(newer) + later);
    var q := Added(p, k);
    if q + k == once {
      assert q == once[..|once| - |k|];
      assert q[|q| - 1] == a;
      AddedIsAdmitted(p, k, a);
      AddedIsAdmitted(older, Trim(newer), a);
      assert false;
    }
  }

  lemma NewestRevival(ring: Ring, later: Ring, j: nat) returns (i: nat)
    requires j < |ring| && Revived(ring, later, j)
    ensures i < |ring| && Revived(ring, later, i) && forall k :: i < k < |ring| ==> !Revived(ring, later, k)
  {
    var revived := (k: nat) => k < |ring| && Revived(ring, later, k);
    i := LastWhere(revived, |ring|, j);
    forall k | i < k < |ring|
      ensures !Revived(ring, later, k)
    {
      assert !revived(k);
    }
  }

  /** Trimming as you go gives the trim of the whole history exactly when no entry is revived. */
  lemma IncrementalExactly(ring: Ring, later: Ring)
    ensures Trim(Trim(ring) + later) == Trim(ring + later) <==> forall i :: 0 <= i < |ring| ==> !Revived(ring, later, i)
  {
    if forall i :: 0 <= i < |ring| ==> !Revived(ring, later, i) {
      NoRevivalSuffices(ring, later);
    } else {
      var j :| 0 <= j < |ring| && Revived(ring, later, j);
      var i := NewestRevival(ring, later, j);
      NewestRevivalShows(ring, later, i);
    }
  }

  // ---- Entries that name one file ----

  ghost predicate OneFileEach(ring: Ring) {
    forall t :: t in ring ==> |t.files| == 1
  }

  ghost function Owners(ring: Ring): multiset<string>
    requires OneFileEach(ring)
  {
    if ring == [] then multiset{} else multiset{ring[0].files[0]} + Owners(ring[1..])
  }

  lemma {:induction false} OwnersAre(ring: Ring)
    requires OneFileEach(ring)
    ensures |Owners(ring)| == |ring|
    ensures forall f :: Owners(ring)[f] == Mentions(ring, f)
  {
    if ring != [] {
      OwnersAre(ring[1..]);
      assert ring[0].files == [ring[0].files[0]];
    }
  }

  lemma MoreOwners(a: multiset<string>, b: multiset<string>)
    requires a <= b
    ensures |a| <= |b|
  {
    assert b == a + (b - a);
  }

  lemma {:induction false} TrimKeepsOneFile(ring: Ring)
    requires OneFileEach(ring)
    ensures OneFileEach(Trim(ring))
    ensures forall f :: Mentions(Trim(ring), f) <= MAX_PER_FILE
  {
    if ring != [] {
      TrimKeepsOneFile(ring[1..]);
      var kept := Trim(ring[1..]);
      assert kept + [] == kept;
      assert ring[0].files == [ring[0].files[0]];
      if Admits(kept, ring[0]) {
        assert ([ring[0]] + kept)[1..] == kept;
      }
    }
  }

  /** Each file's share of `k` is within its share of `k2`, unless `k2` is full. */
  ghost predicate Within(k: Ring, k2: Ring) {
    && (|k2| == MAX_GLOBAL || forall f :: Mentions(k, f) <= Mentions(k2, f))
    && |k| <= |k2| <= MAX_GLOBAL
  }

  function Judged(k: Ring, a: Touch): Ring {
    if Admits(k, a) then [a] + k else k
  }

  lemma JudgedMentions(k: Ring, a: Touch, f: string)
    requires |a.files| == 1
    ensures Mentions(Judged(k, a), f) == Mentions(k, f) + (if f == a.files[0] && Admits(k, a) then 1 else 0)
  {
    assert a.files == [a.files[0]];
    assert ([a] + k)[1..] == k;
  }

  lemma WithinStep(k: Ring, k2: Ring, a: Touch)
    requires OneFileEach(k) && OneFileEach(k2) && |a.files| == 1
    requires Within(k, k2)
    requires forall f :: Mentions(k2, f) <= MAX_PER_FILE
    ensures Within(Judged(k, a), Judged(k2, a))
  {
    var f := a.files[0];
    assert a.files == [f];
    if |k2| < MAX_GLOBAL {
      assert Admits(k, a) <==> Mentions(k, f) < MAX_PER_FILE;
      assert Admits(k2, a) <==> Mentions(k2, f) < MAX_PER_FILE;
      forall g
        ensures Mentions(Judged(k, a), g) <= Mentions(Judged(k2, a), g)
      {
        JudgedMentions(k, a, g);
        JudgedMentions(k2, a, g);
        assert Mentions(k, g) <= Mentions(k2, g);
      }
      if Admits(k, a) && !Admits(k2, a) {
        OwnersAre(k);
        OwnersAre(k2);
        MoreOwners(Owners(k) + multiset{f}, Owners(k2));
      }
    }
  }

  /** Newer entries leave each file's share as large as it was, unless they fill the ring. */
  lemma {:induction false} SharesGrow(ring: Ring, later: Ring)
    requires OneFileEach(ring) && OneFileEach(later)
    ensures Within(Trim(ring), Trim(ring + later))
  {
    TrimCaps(ring + later, "");
    if ring == [] {
      assert ring + later == later;
    } else {
      var rest := ring[1..];
      assert (ring + later)[1..] == rest + later && (ring + later)[0] == ring[0];
      SharesGrow(rest, later);
      TrimKeepsOneFile(rest);
      TrimKeepsOneFile(rest + later);
      WithinStep(Trim(rest), Trim(rest + later), ring[0]);
      assert Trim(rest) + [] == Trim(rest) && Trim(rest + later) + [] == Trim(rest + later);
    }
  }

  lemma OneFileNeverRevives(ring: Ring, later: Ring, i: nat)
    requires i < |ring| && OneFileEach(ring) && OneFileEach(later)
    ensures !Revived(ring, later, i)
  {
    var newer := ring[i + 1..];
    SharesGrow(newer, later);
    assert ring[i].files == [ring[i].files[0]];
  }

  /** The ring after recording every entry of `history` in turn. */
  function Recorded(history: Ring): Ring {
    if history == [] then [] else Trim(Recorded(history[..|history| - 1]) + [history[|history| - 1]])
  }

  lemma RecordedPush(history: Ring, t: Touch)
    ensures Recorded(history + [t]) == Trim(Recorded(history) + [t])
  {
    assert (history + [t])[..|history|] == history;
  }

  /** No entry of the first `n` is ever brought back by the next one. */
  ghost predicate NeverRevives(history: Ring) {
    forall n, i :: 0 <= n < |history| && 0 <= i < n ==> !Revived(history[..n], [history[n]], i)
  }

  lemma {:induction false} UnrevivedRun(history: Ring, n: nat)
    requires NeverRevives(history) && n <= |history|
    ensures Recorded(history[..n]) == Trim(history[..n])
  {
    if n > 0 {
      UnrevivedRun(history, n - 1);
      var front, t := history[..n - 1], history[n - 1];
      assert history[..n] == front + [t];
      RecordedPush(front, t);
      NoRevivalSuffices(front, [t]);
    }
  }

  /** Over a run, the ring is all the time the trim of everything recorded so far, exactly when no
      record ever revives an entry. */
  lemma RunIsHistoryExactly(history: Ring)
    ensures (forall n :: 0 <= n <= |history| ==> Recorded(history[..n]) == Trim(history[..n])) <==>
              NeverRevives(history)
  {
    if NeverRevives(history) {
      forall n | 0 <= n <= |history|
        ensures Recorded(history[..n]) == Trim(history[..n])
      {
        UnrevivedRun(history, n);
      }
    } else if forall n :: 0 <= n <= |history| ==> Recorded(history[..n]) == Trim(history[..n]) {
      forall n, i | 0 <= n < |history| && 0 <= i < n
        ensures !Revived(history[..n], [history[n]], i)
      {
        RevivalShows(history, n, i);
        assert n + 1 <= |history|;
      }
    }
  }

  lemma RevivalShows(history: Ring, n: nat, i: nat)
    requires n < |history| && i < n
    ensures Revived(history[..n], [history[n]], i) ==>
              Recorded(history[..n]) != Trim(history[..n]) || Recorded(history[..n + 1]) != Trim(history[..n + 1])
  {
    var front, t := history[..n], history[n];
    assert history[..n + 1] == front + [t];
    RecordedPush(front, t);
    IncrementalExactly(front, [t]);
  }

  /** When every entry names one file, the ring is the trim of everything ever recorded. */
  lemma RingIsWholeHistory(history: Ring)
    requires OneFileEach(history)
    ensures Recorded(history) == Trim(history)
  {
    forall n, i | 0 <= n < |history| && 0 <= i < n
      ensures !Revived(history[..n], [history[n]], i)
    {
      OneFileNeverRevives(history[..n], [history[n]], i);
    }
    UnrevivedRun(history, |history|);
    assert history[..|history|] == history;
  }

  /** Over every run: the caps hold, the ring keeps entries in order and ends in the newest, and
      trimming it again changes nothing. */
  lemma {:induction false} RingInvariant(history: Ring, f: string)
    ensures var ring := Recorded(history);
            && |ring| <= 250
            && Naming(ring, f) <= 10
            && Subsequence(ring, history)
            && (history != [] ==> ring != [] && ring[|ring| - 1] == history[|history| - 1])
            && Trim(ring) == ring
  {
    if history != [] {
      var n := |history| - 1;
      var front, e := history[..n], history[n];
      RingInvariant(front, f);
      var pushed := Recorded(front) + [e];
      TrimCaps(pushed, f);
      TrimIsSubsequence(pushed);
      TrimIdempotent(pushed);
      SubsequencePush(Recorded(front), front, e);
      assert history == front + [e];
      SubsequenceTransitive(Trim(pushed), pushed, history);
    }
  }

  lemma {:induction false} SubsequencePush(s: Ring, h: Ring, t: Touch)
    requires Subsequence(s, h)
    ensures Subsequence(s + [t], h + [t])
  {
    if h == [] {
      assert s + [t] == [t] && h + [t] == [t];
    } else {
      assert (h + [t])[1..] == h[1..] + [t];
      if s != [] && s[0] == h[0] && Subsequence(s[1..], h[1..]) {
        SubsequencePush(s[1..], h[1..], t);
        assert (s + [t])[1..] == s[1..] + [t];
      } else {
        SubsequencePush(s, h[1..], t);
      }
    }
  }

  lemma {:induction false} SubsequenceTransitive(a: Ring, b: Ring, c: Ring)
    requires Subsequence(a, b) && Subsequence(b, c)
    ensures Subsequence(a, c)
    decreases |b| + |c|
  {
    if a != [] {
      if b[0] == c[0] && Subsequence(b[1..], c[1..]) {
        if a[0] == b[0] && Subsequence(a[1..], b[1..]) {
          SubsequenceTransitive(a[1..], b[1..], c[1..]);
        } else {
          SubsequenceTransitive(a, b[1..], c[1..]);
        }
      } else {
        SubsequenceTransitive(a, b, c[1..]);
      }
    }
  }

  // ---- Entries that name several files ----

  function Copies(n: nat, t: Touch): Ring {
    if n == 0 then [] else [t] + Copies(n - 1, t)
  }

  lemma {:induction false} MentionsOfCopies(n: nat, t: Touch, rest: Ring, f: string)
    ensures Mentions(Copies(n, t) + rest, f) == n * multiset(t.files)[f] + Mentions(rest, f)
    ensures |Copies(n, t) + rest| == n + |rest|
  {
    if n == 0 {
      assert Copies(n, t) + rest == rest;
    } else {
      MentionsOfCopies(n - 1, t, rest, f);
      assert (Copies(n, t) + rest)[1..] == Copies(n - 1, t) + rest;
      assert (n - 1) * multiset(t.files)[f] + multiset(t.files)[f] == n * multiset(t.files)[f];
    }
  }

  /** A history within the caps is kept whole. */
  lemma {:induction false} WithinCapsIsKept(ring: Ring)
    requires |ring| <= MAX_GLOBAL && forall f :: Mentions(ring, f) <= MAX_PER_FILE
    ensures Trim(ring) == ring
  {
    if ring != [] {
      forall f
        ensures Mentions(ring[1..], f) <= MAX_PER_FILE
      {
        assert Mentions(ring, f) >= Mentions(ring[1..], f);
      }
      WithinCapsIsKept(ring[1..]);
      assert ring[1..] + [] == ring[1..];
      forall f | f in ring[0].files
        ensures Mentions(ring[1..], f) < MAX_PER_FILE
      {
        assert Mentions(ring, f) <= MAX_PER_FILE;
      }
    }
  }

  lemma MentionsLess(ring: Ring, t: Touch, f: string)
    ensures Mentions(ring, f) <= Mentions(ring + [t], f)
  {
    if ring != [] {
      MentionsLess(ring[1..], t, f);
      assert (ring + [t])[1..] == ring[1..] + [t];
    }
  }

  /** And recorded whole. */
  lemma {:induction false} WithinCapsIsRecorded(ring: Ring)
    requires |ring| <= MAX_GLOBAL && forall f :: Mentions(ring, f) <= MAX_PER_FILE
    ensures Recorded(ring) == ring
  {
    if ring != [] {
      var front, t := ring[..|ring| - 1], ring[|ring| - 1];
      assert ring == front + [t];
      forall f
        ensures Mentions(front, f) <= MAX_PER_FILE
      {
        MentionsLess(front, t, f);
      }
      WithinCapsIsRecorded(front);
      WithinCapsIsKept(ring);
    }
  }

  function Edit(files: seq<string>): Touch {
    Touch(0, files, "why", "agent")
  }

  /** Eight edits of "f" and nine of "g". */
  function Filler(): Ring {
    Copies(8, Edit(["f"])) + Copies(9, Edit(["g"]))
  }

  lemma MentionsOfFiller(later: Ring, x: string)
    ensures Mentions(Filler() + later, x) == (if x == "f" then 8 else if x == "g" then 9 else 0) + Mentions(later, x)
    ensures |Filler() + later| == 17 + |later|
  {
    var f, g := Edit(["f"]), Edit(["g"]);
    assert Filler() + later == Copies(8, f) + (Copies(9, g) + later);
    MentionsOfCopies(8, f, Copies(9, g) + later, x);
    MentionsOfCopies(9, g, later, x);
    assert multiset(f.files)[x] == (if x == "f" then 1 else 0);
    assert multiset(g.files)[x] == (if x == "g" then 1 else 0);
  }

  lemma MentionsOfMore(t: Touch, ring: Ring, x: string)
    ensures Mentions([t] + ring, x) == multiset(t.files)[x] + Mentions(ring, x)
  {
    assert ([t] + ring)[1..] == ring;
  }

  lemma MentionsOfOne(t: Touch, x: string)
    ensures Mentions([t], x) == multiset(t.files)[x]
  {
    assert [t][1..] == [];
  }

  /** The edits of `f`, of both and of `g` that the histories below are made of. */
  lemma EditMentions(x: string)
    ensures multiset(Edit(["f"]).files)[x] == (if x == "f" then 1 else 0)
    ensures multiset(Edit(["g"]).files)[x] == (if x == "g" then 1 else 0)
    ensures multiset(Edit(["f", "g"]).files)[x] == (if x == "f" || x == "g" then 1 else 0)
  {
  }

  /** An edit of "f", one of both, and the filler: both quotas are full, and all is recorded. */
  lemma FirstIsRecorded()
    ensures var u := [Edit(["f"]), Edit(["f", "g"])] + Filler(); Recorded(u) == u
  {
    var f, m := Edit(["f"]), Edit(["f", "g"]);
    assert [f, m] + Filler() == [f] + ([m] + Filler());
    assert Filler() + [] == Filler();
    forall x
      ensures Mentions([f] + ([m] + Filler()), x) <= MAX_PER_FILE
    {
      MentionsOfFiller([], x);
      EditMentions(x);
      MentionsOfMore(m, Filler(), x);
      MentionsOfMore(f, [m] + Filler(), x);
    }
    MentionsOfFiller([], "f");
    WithinCapsIsRecorded([f, m] + Filler());
  }

  lemma Rejects(t: Touch, ring: Ring, f: string)
    requires f in t.files && Mentions(ring, f) >= MAX_PER_FILE && Trim(ring) == ring
    ensures Trim([t] + ring) == ring
  {
    assert ([t] + ring)[1..] == ring && ring + [] == ring;
  }

  /** One more edit of "f" pushes the first one out. */
  lemma FirstIsDropped()
    ensures var x := [Edit(["f", "g"])] + (Filler() + [Edit(["f"])]); Trim([Edit(["f"])] + x) == x
  {
    var f, m := Edit(["f"]), Edit(["f", "g"]);
    var x := [m] + (Filler() + [f]);
    forall n
      ensures Mentions(x, n) == (if n == "f" || n == "g" then 10 else 0)
    {
      MentionsOfFiller([f], n);
      MentionsOfOne(f, n);
      EditMentions(n);
      MentionsOfMore(m, Filler() + [f], n);
    }
    MentionsOfFiller([f], "f");
    WithinCapsIsKept(x);
    Rejects(f, x, "f");
  }

  /** One more edit of "g" then pushes the edit of both out, and leaves room for one of "f". */
  lemma BothIsDropped()
    ensures var y := Filler() + [Edit(["f"]), Edit(["g"])];
            && Trim([Edit(["f", "g"])] + y) == y
            && Trim([Edit(["f"])] + ([Edit(["f", "g"])] + y)) == [Edit(["f"])] + y
  {
    var f, m, g := Edit(["f"]), Edit(["f", "g"]), Edit(["g"]);
    var y := Filler() + [f, g];
    forall n
      ensures Mentions(y, n) == (if n == "f" then 9 else if n == "g" then 10 else 0)
    {
      MentionsOfFiller([f, g], n);
      MentionsOfOne(g, n);
      EditMentions(n);
      MentionsOfMore(f, [g], n);
      assert [f] + [g] == [f, g];
    }
    MentionsOfFiller([f, g], "f");
    WithinCapsIsKept(y);
    assert m.files[1] == "g";
    Rejects(m, y, "g");
    assert forall n :: n in f.files ==> n == "f";
    assert Admits(y, f) && y + [] == y && ([f] + ([m] + y))[1..] == [m] + y;
  }

  /** With an entry that names two files the ring can differ from the trim of the whole history: the
      first edit of "f" is dropped for newer mentions of "f", one of them in an edit of both files
      that a later edit of "g" pushes out itself. */
  lemma TwoFileEntriesRevive()
    ensures var h := [Edit(["f"]), Edit(["f", "g"])] + Filler() + [Edit(["f"])] + [Edit(["g"])];
            Recorded(h) != Trim(h)
  {
    var f, m, g := Edit(["f"]), Edit(["f", "g"]), Edit(["g"]);
    FirstIsRecorded();
    FirstIsDropped();
    BothIsDropped();
    EditsRegroup(f, m, g, Filler());
    Diverges([f, m] + Filler(), [m] + (Filler() + [f]), Filler() + [f, g], f, m, g);
  }

  lemma EditsRegroup(f: Touch, m: Touch, g: Touch, k: Ring)
    ensures [f, m] + k + [f] == [f] + ([m] + (k + [f]))
    ensures [m] + (k + [f]) + [g] == [m] + (k + [f, g])
  {
  }

  /** Where `f` drops out first and `m` after it, although `f` would stay in if `m` were out. */
  lemma Diverges(u: Ring, x: Ring, y: Ring, f: Touch, m: Touch, g: Touch)
    requires Recorded(u) == u
    requires u + [f] == [f] + x && Trim([f] + x) == x
    requires x + [g] == [m] + y && Trim([m] + y) == y
    requires Trim([f] + ([m] + y)) == [f] + y
    ensures Recorded(u + [f] + [g]) != Trim(u + [f] + [g])
  {
    RecordedPush(u, f);
    RecordedPush(u + [f], g);
    Regroup([f], x, [g]);
    assert |[f] + y| != |y|;
  }

  // ---- Recording one edit ----

  datatype Outcome = Rejected | Accepted(entry: Touch, ring: Ring, fileCounts: seq<(string, nat)>)

  /** `norm` are normalised paths of `files` where each turns up first, in their order. */
  ghost predicate Firsts(files: seq<string>, normalize: string -> string, norm: seq<string>, places: seq<nat>) {
    && Ascending(places) && |norm| == |places|
    && forall k :: 0 <= k < |norm| ==>
         && places[k] < |files| && norm[k] == normalize(files[places[k]])
         && forall j :: 0 <= j < places[k] ==> normalize(files[j]) != norm[k]
  }

  ghost predicate InOrder(files: seq<string>, normalize: string -> string, norm: seq<string>) {
    exists places :: Firsts(files, normalize, norm, places)
  }

  lemma FirstsPush(files: seq<string>, normalize: string -> string, norm: seq<string>, i: nat)
    requires i < |files| && InOrder(files[..i], normalize, norm)
    requires forall j :: 0 <= j < i ==> normalize(files[j]) != normalize(files[i])
    ensures InOrder(files[..i + 1], normalize, norm + [normalize(files[i])])
  {
    var places :| Firsts(files[..i], normalize, norm, places);
    assert Firsts(files[..i + 1], normalize, norm + [normalize(files[i])], places + [i]);
  }

  lemma FirstsStay(files: seq<string>, normalize: string -> string, norm: seq<string>, i: nat)
    requires i < |files| && InOrder(files[..i], normalize, norm)
    ensures InOrder(files[..i + 1], normalize, norm)
  {
    var places :| Firsts(files[..i], normalize, norm, places);
    assert Firsts(files[..i + 1], normalize, norm, places);
  }

  /** The repo-relative paths of `files`, in the order they turn up, each once, without those that normalise to nothing.
      `normalize` stands for the path normalisation, which asks the file system. */
  method NormalizeFiles(files: seq<string>, normalize: string -> string) returns (norm: seq<string>)
    ensures Distinct(norm)
    ensures forall n :: n in norm <==> n != "" && exists f :: f in files && normalize(f) == n
    ensures InOrder(files, normalize, norm)
  {
    norm := [];
    assert Firsts(files[..0], normalize, norm, []);
    for i := 0 to |files|
      invariant Distinct(norm)
      invariant InOrder(files[..i], normalize, norm)
      invariant forall n :: n in norm <==> n != "" && exists f :: f in files[..i] && normalize(f) == n
    {
      assert files[..i + 1] == files[..i] + [files[i]];
      var n := normalize(files[i]);
      if n != "" && n !in norm {
        assert forall j :: 0 <= j < i ==> files[j] in files[..i];
        FirstsPush(files, normalize, norm, i);
        norm := norm + [n];
      } else {
        FirstsStay(files, normalize, norm, i);
      }
    }
    assert files[..|files|] == files;
  }

  /** The number of entries that name `f`. */
  lemma {:induction false} NamingMeaning(a: Ring, b: Ring, t: Touch, f: string)
    ensures Naming(a + b, f) == Naming(a, f) + Naming(b, f)
    ensures Naming([t], f) == if f in t.files then 1 else 0
  {
    assert [t][1..] == [] && Naming([], f) == 0;
    if a == [] {
      assert a + b == b;
    } else {
      NamingMeaning(a[1..], b, t, f);
      ConcatTail(a, b);
    }
  }

  method CountNaming(ring: Ring, f: string) returns (n: nat)
    ensures n == Naming(ring, f)
  {
    n := 0;
    var i := |ring|;
    assert ring[i..] == [];
    while i > 0
      invariant 0 <= i <= |ring| && n == Naming(ring[i..], f)
    {
      i := i - 1;
      assert ring[i..][1..] == ring[i + 1..];
      n := n + if f in ring[i].files then 1 else 0;
    }
    assert ring[0..] == ring;
  }

  lemma {:induction false} NamedAtTheEnd(ring: Ring, f: string)
    requires ring != [] && f in ring[|ring| - 1].files
    ensures Naming(ring, f) >= 1
  {
    if |ring| > 1 { NamedAtTheEnd(ring[1..], f); }
  }

  /** One edit is rejected for want of a reason or of a file, or becomes the newest entry of the
      ring; each of its files is then named by 1 to 10 entries. `trim` strips white space. */
  method RecordTouch(ring: Ring, files: seq<string>, why: string, agent: string, ts: nat,
      normalize: string -> string, trim: string -> string)
    returns (r: Outcome)
    ensures r.Rejected? <==> trim(why) == "" || forall f :: f in files ==> normalize(f) == ""
    ensures r.Accepted? ==>
      && r.ring == Trim(ring + [r.entry])
      && r.ring != [] && r.ring[|r.ring| - 1] == r.entry
      && r.entry.ts == ts && r.entry.why == trim(why)
      && r.entry.agent == (if trim(agent) == "" then "unknown" else trim(agent))
      && Distinct(r.entry.files) && InOrder(files, normalize, r.entry.files)
      && (forall n :: n in r.entry.files <==> n != "" && exists f :: f in files && normalize(f) == n)
      && |r.fileCounts| == |r.entry.files|
      && (forall i :: 0 <= i < |r.fileCounts| ==>
            && r.fileCounts[i].0 == r.entry.files[i]
            && r.fileCounts[i].1 == Naming(r.ring, r.entry.files[i])
            && 1 <= r.fileCounts[i].1 <= 10)
  {
    if trim(why) == "" {
      return Rejected;
    }
    var norm := NormalizeFiles(files, normalize);
    if norm == [] {
      forall f | f in files
        ensures normalize(f) == ""
      {
        assert normalize(f) !in norm;
      }
      return Rejected;
    }
    assert norm[0] in norm;
    var name := trim(agent);
    var entry := Touch(ts, norm, trim(why), if name == "" then "unknown" else name);
    var kept := TrimRing(ring + [entry]);
    TrimIsSubsequence(ring + [entry]);
    var counts := CountNamings(kept, norm);
    forall i | 0 <= i < |norm|
      ensures 1 <= Naming(kept, norm[i]) <= MAX_PER_FILE
    {
      TrimCaps(ring + [entry], norm[i]);
      NamedAtTheEnd(kept, norm[i]);
    }
    r := Accepted(entry, kept, counts);
  }

  method CountNamings(ring: Ring, files: seq<string>) returns (counts: seq<(string, nat)>)
    ensures |counts| == |files|
    ensures forall k :: 0 <= k < |files| ==> counts[k] == (files[k], Naming(ring, files[k]))
  {
    counts := [];
    for i := 0 to |files|
      invariant |counts| == i
      invariant forall k :: 0 <= k < i ==> counts[k] == (files[k], Naming(ring, files[k]))
    {
      var n := CountNaming(ring, files[i]);
      counts := counts + [(files[i], n)];
    }
  }
}
