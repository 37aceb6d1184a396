/** A reverse index: for every key, the positions of the entries that carry it. */
module ReverseIndex {
  import opened Common

  /** `index` lists every position under its key and under no other, once, and has no empty lists. */
  ghost predicate Mirrors<K(!new)>(index: map<K, seq<nat>>, keys: seq<Option<K>>) {
    && (forall k :: k in index ==> index[k] != [] && Distinct(index[k]))
    && (forall k, i: nat :: Listed(index, k, i) <==> i < |keys| && keys[i] == Some(k))
  }

  predicate Listed<K>(index: map<K, seq<nat>>, k: K, i: nat) {
    k in index && i in index[k]
  }

  function Add<K>(index: map<K, seq<nat>>, k: K, i: nat): map<K, seq<nat>> {
    index[k := (if k in index then index[k] else []) + [i]]
  }

  function Without(s: seq<nat>, i: nat): seq<nat> {
    if s == [] then []
    else (if s[0] == i then [] else [s[0]]) + Without(s[1..], i)
  }

  /** Position `i` leaves the list of `k`, and an empty list leaves the index. */
  function Drop<K>(index: map<K, seq<nat>>, k: K, i: nat): map<K, seq<nat>> {
    if k !in index then index
    else
      var rest := Without(index[k], i);
      if rest == [] then index - {k} else index[k := rest]
  }

  lemma {:induction false} WithoutMeaning(s: seq<nat>, i: nat)
    ensures forall x :: x in Without(s, i) <==> x in s && x != i
    ensures Distinct(s) ==> Distinct(Without(s, i))
  {
    if s != [] {
      WithoutMeaning(s[1..], i);
      assert s == [s[0]] + s[1..];
      if Distinct(s) {
        assert forall a, b :: 0 <= a < b < |s[1..]| ==> s[1..][a] == s[a + 1] && s[1..][b] == s[b + 1];
        assert s[0] !in s[1..];
        var r := Without(s[1..], i);
        assert s[0] !in r;
        assert Distinct(Without(s, i));
      }
    }
  }

  lemma AddMirrors<K(!new)>(index: map<K, seq<nat>>, keys: seq<Option<K>>, k: K, i: nat)
    requires Mirrors(index, keys) && i < |keys| && keys[i] == None
    ensures Mirrors(Add(index, k, i), keys[i := Some(k)])
  {
    var r, after := Add(index, k, i), keys[i := Some(k)];
    assert !Listed(index, k, i);
    forall h, j: nat
      ensures Listed(r, h, j) <==> j < |after| && after[j] == Some(h)
    {
      assert Listed(index, h, j) <==> j < |keys| && keys[j] == Some(h);
    }
  }

  lemma DropListed<K(!new)>(index: map<K, seq<nat>>, k: K, i: nat, h: K, j: nat)
    ensures Listed(Drop(index, k, i), h, j) <==> Listed(index, h, j) && !(h == k && j == i)
  {
    if k in index {
      WithoutMeaning(index[k], i);
    }
  }

  lemma DropMirrors<K(!new)>(index: map<K, seq<nat>>, keys: seq<Option<K>>, k: K, i: nat)
    requires Mirrors(index, keys) && i < |keys| && keys[i] == Some(k)
    ensures Mirrors(Drop(index, k, i), keys[i := None])
  {
    var r, after := Drop(index, k, i), keys[i := None];
    assert Listed(index, k, i);
    WithoutMeaning(index[k], i);
    forall h, j: nat
      ensures Listed(r, h, j) <==> j < |after| && after[j] == Some(h)
    {
      DropListed(index, k, i, h, j);
      assert Listed(index, h, j) <==> j < |keys| && keys[j] == Some(h);
    }
  }

  /** A new last entry, with or without a key. */
  lemma PushMirrors<K(!new)>(index: map<K, seq<nat>>, keys: seq<Option<K>>, o: Option<K>)
    requires Mirrors(index, keys)
    ensures Mirrors(if o.Some? then Add(index, o.value, |keys|) else index, keys + [o])
  {
    var wide := keys + [None];
    forall h, j: nat
      ensures Listed(index, h, j) <==> j < |wide| && wide[j] == Some(h)
    {
      assert Listed(index, h, j) <==> j < |keys| && keys[j] == Some(h);
    }
    assert Mirrors(index, wide);
    if o.Some? {
      AddMirrors(index, wide, o.value, |keys|);
      assert wide[|keys| := o] == keys + [o];
    }
  }

  /** The keys of the index are exactly the keys carried by some entry. */
  lemma MirroredKeys<K(!new)>(index: map<K, seq<nat>>, keys: seq<Option<K>>, k: K)
    requires Mirrors(index, keys)
    ensures k in index <==> Some(k) in keys
  {
    if k in index {
      assert Listed(index, k, index[k][0]);
    }
    if Some(k) in keys {
      var i :| 0 <= i < |keys| && keys[i] == Some(k);
      assert Listed(index, k, i);
    }
  }
}
