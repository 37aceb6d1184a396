/** Attributing positions in a file to the innermost function that holds them. */
module Innermost {
  import opened Common
  import opened Sorting

  /** A function's bytes, end exclusive. */
  datatype Range = Range(start: nat, end: nat)

  predicate Holds(r: Range, pos: nat) {
    r.start <= pos < r.end
  }

  /** By start, and for the same start the longer range first. */
  predicate RangeLeq(a: Range, b: Range) {
    a.start < b.start || (a.start == b.start && a.end >= b.end)
  }

  /** `i` is the last range, in the order of the list, that holds the position. */
  ghost predicate LastHolding(ranges: seq<Range>, pos: nat, i: nat) {
    && i < |ranges| && Holds(ranges[i], pos)
    && forall j :: i < j < |ranges| ==> !Holds(ranges[j], pos)
  }

  ghost predicate IsOwner(ranges: seq<Range>, pos: nat, owner: Option<nat>) {
    match owner
    case Some(i) => LastHolding(ranges, pos, i)
    case None => forall j :: 0 <= j < |ranges| ==> !Holds(ranges[j], pos)
  }

  // ---- The scan ----

  function MaxEnd(ranges: seq<Range>): nat {
    if ranges == [] then 0
    else
      var n := |ranges| - 1;
      var m := MaxEnd(ranges[..n]);
      if ranges[n].end > m then ranges[n].end else m
  }

  lemma {:induction false} MaxEndBounds(ranges: seq<Range>, j: nat)
    requires j < |ranges|
    ensures ranges[j].end <= MaxEnd(ranges)
  {
    if j < |ranges| - 1 { MaxEndBounds(ranges[..|ranges| - 1], j); }
  }

  /** `m[i]` is the greatest end among the first `i + 1` ranges. */
  ghost predicate IsPrefixMax(ranges: seq<Range>, m: seq<nat>) {
    |m| == |ranges| && forall i :: 0 <= i < |m| ==> m[i] == MaxEnd(ranges[..i + 1])
  }

  method PrefixMaxEnds(ranges: seq<Range>) returns (m: seq<nat>)
    ensures IsPrefixMax(ranges, m)
  {
    m := [];
    var running := 0;
    for i := 0 to |ranges|
      invariant |m| == i && running == MaxEnd(ranges[..i])
      invariant forall a :: 0 <= a < i ==> m[a] == MaxEnd(ranges[..a + 1])
    {
      assert ranges[..i + 1][..i] == ranges[..i];
      if ranges[i].end > running {
        running := ranges[i].end;
      }
      m := m + [running];
    }
  }

  /** How many ranges start at or before the position, by halving. */
  method PartitionPoint(ranges: seq<Range>, pos: nat) returns (k: nat)
    requires Sorted(RangeLeq, ranges)
    ensures k <= |ranges|
    ensures forall i :: 0 <= i < k ==> ranges[i].start <= pos
    ensures forall i :: k <= i < |ranges| ==> ranges[i].start > pos
  {
    var lo, hi := 0, |ranges|;
    while lo < hi
      invariant 0 <= lo <= hi <= |ranges|
      invariant forall i :: 0 <= i < lo ==> ranges[i].start <= pos
      invariant forall i :: hi <= i < |ranges| ==> ranges[i].start > pos
    {
      var mid := (lo + hi) / 2;
      assert forall i :: 0 <= i < mid ==> RangeLeq(ranges[i], ranges[mid]);
      assert forall i :: mid < i < |ranges| ==> RangeLeq(ranges[mid], ranges[i]);
      if ranges[mid].start <= pos {
        lo := mid + 1;
      } else {
        hi := mid;
      }
    }
    k := lo;
  }

  /** The scan agrees with looking at every range, nested or not. */
  method FindOwner(ranges: seq<Range>, prefixMax: seq<nat>, pos: nat) returns (owner: Option<nat>)
    requires Sorted(RangeLeq, ranges) && IsPrefixMax(ranges, prefixMax)
    ensures IsOwner(ranges, pos, owner)
  {
    owner := None;
    var i := PartitionPoint(ranges, pos);
    while i > 0
      invariant 0 <= i <= |ranges|
      invariant forall j :: 0 <= j < i ==> ranges[j].start <= pos
      invariant forall j :: i <= j < |ranges| ==> !Holds(ranges[j], pos)
      decreases i
    {
      i := i - 1;
      if prefixMax[i] <= pos {
        forall j | 0 <= j <= i
          ensures !Holds(ranges[j], pos)
        {
          MaxEndBounds(ranges[..i + 1], j);
        }
        return;
      }
      if ranges[i].end > pos {
        return Some(i);
      }
    }
  }

  // ---- Innermost ----

  ghost predicate Inside(a: Range, b: Range) {
    b.start <= a.start && a.end <= b.end
  }

  /** Any two ranges are apart, or one lies inside the other. */
  ghost predicate Nested(ranges: seq<Range>) {
    forall i, j :: 0 <= i < |ranges| && 0 <= j < |ranges| ==>
      ranges[i].end <= ranges[j].start || ranges[j].end <= ranges[i].start
      || Inside(ranges[i], ranges[j]) || Inside(ranges[j], ranges[i])
  }

  /** Among nested ranges the owner lies inside every range that holds the position, and is the
      shortest of them when no range is listed twice. */
  lemma OwnerIsInnermost(ranges: seq<Range>, pos: nat, i: nat, j: nat)
    requires Sorted(RangeLeq, ranges) && Nested(ranges) && LastHolding(ranges, pos, i)
    requires j < |ranges| && Holds(ranges[j], pos)
    ensures Inside(ranges[i], ranges[j])
    ensures Distinct(ranges) && j != i ==> ranges[i].end - ranges[i].start < ranges[j].end - ranges[j].start
  {
    if j < i {
      assert RangeLeq(ranges[j], ranges[i]);
      assert ranges[j] == ranges[i] ==> !Distinct(ranges);
    }
  }

  /** Sorting leaves nothing of the order in which the functions were collected. */
  lemma RangeOrderDoesNotMatter(a: seq<Range>, b: seq<Range>)
    requires multiset(a) == multiset(b)
    ensures Sort(RangeLeq, a) == Sort(RangeLeq, b)
  {
    assert Separates(RangeLeq, a);
    SortPermutation(RangeLeq, a, b);
  }

  // ---- Attribution ----

  /** The positions whose owner is `o`, in order. */
  function Owned(owners: seq<Option<nat>>, o: Option<nat>): seq<nat> {
    if owners == [] then []
    else
      var n := |owners| - 1;
      Owned(owners[..n], o) + (if owners[n] == o then [n] else [])
  }

  /** Every call is attributed once, to its owner, and calls keep their order. */
  lemma {:induction false} OwnedMeaning(owners: seq<Option<nat>>, o: Option<nat>)
    ensures forall k: nat :: k in Owned(owners, o) <==> k < |owners| && owners[k] == o
    ensures forall a, b :: 0 <= a < b < |Owned(owners, o)| ==> Owned(owners, o)[a] < Owned(owners, o)[b]
  {
    if owners != [] {
      var n := |owners| - 1;
      OwnedMeaning(owners[..n], o);
      var front := Owned(owners[..n], o);
      assert forall a :: 0 <= a < |front| ==> front[a] in front;
    }
  }

  lemma OwnedPush(owners: seq<Option<nat>>, owner: Option<nat>, o: Option<nat>)
    ensures Owned(owners + [owner], o) == Owned(owners, o) + (if owner == o then [|owners|] else [])
  {
    assert (owners + [owner])[..|owners|] == owners;
  }

  /** Each call has its owner. */
  ghost predicate Owns(ranges: seq<Range>, calls: seq<nat>, owners: seq<Option<nat>>) {
    |owners| == |calls| && forall k :: 0 <= k < |calls| ==> IsOwner(ranges, calls[k], owners[k])
  }

  /** Every call so far is listed under its owner, or as top-level. */
  ghost predicate Filed(owners: seq<Option<nat>>, perFunction: seq<seq<nat>>, toplevel: seq<nat>, n: nat) {
    && |perFunction| == n && (forall i :: 0 <= i < n ==> perFunction[i] == Owned(owners, Some(i)))
    && toplevel == Owned(owners, None)
  }

  lemma FiledPush(owners: seq<Option<nat>>, owner: Option<nat>, perFunction: seq<seq<nat>>, toplevel: seq<nat>, n: nat)
    requires Filed(owners, perFunction, toplevel, n) && (owner.Some? ==> owner.value < n)
    ensures match owner
            case Some(i) =>
              Filed(owners + [owner], perFunction[i := perFunction[i] + [|owners|]], toplevel, n)
            case None => Filed(owners + [owner], perFunction, toplevel + [|owners|], n)
  {
    OwnedPush(owners, owner, None);
    forall i | 0 <= i < n
      ensures Owned(owners + [owner], Some(i)) == Owned(owners, Some(i)) + (if owner == Some(i) then [|owners|] else [])
    {
      OwnedPush(owners, owner, Some(i));
    }
  }

  /** The ranges sorted, and for each the calls (by number) that it owns; the rest are top-level. */
  method Attribute(found: seq<Range>, calls: seq<nat>)
    returns (ranges: seq<Range>, perFunction: seq<seq<nat>>, toplevel: seq<nat>, ghost owners: seq<Option<nat>>)
    ensures ranges == Sort(RangeLeq, found) && Sorted(RangeLeq, ranges) && multiset(ranges) == multiset(found)
    ensures Owns(ranges, calls, owners)
    ensures |perFunction| == |ranges| && forall i :: 0 <= i < |ranges| ==> perFunction[i] == Owned(owners, Some(i))
    ensures toplevel == Owned(owners, None)
  {
    SortIsSorted(RangeLeq, found);
    ranges := Sort(RangeLeq, found);
    var prefixMax := PrefixMaxEnds(ranges);
    perFunction := seq(|ranges|, _ => []);
    toplevel, owners := [], [];
    assert forall o :: Owned([], o) == [];
    for k := 0 to |calls|
      invariant Owns(ranges, calls[..k], owners)
      invariant Filed(owners, perFunction, toplevel, |ranges|)
    {
      var owner := FindOwner(ranges, prefixMax, calls[k]);
      FiledPush(owners, owner, perFunction, toplevel, |ranges|);
      assert calls[..k + 1] == calls[..k] + [calls[k]];
      owners := owners + [owner];
      match owner {
        case Some(i) => perFunction := perFunction[i := perFunction[i] + [k]];
        case None => toplevel := toplevel + [k];
      }
    }
    assert calls[..|calls|] == calls;
  }
}
