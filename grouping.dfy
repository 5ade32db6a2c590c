/**
 * Grouping a sequence by a key, as `defaultdict(list)` does when values are appended in order:
 * one list per key, keys in order of first occurrence, each list in the original order.
 */
module Grouping {
  import opened Sequences

  /** The elements of key `k`, in their original order. */
  function Members(xs: seq<string>, key: string -> string, k: string): seq<string>
    decreases |xs|
  {
    if xs == [] then []
    else
      var x := xs[|xs| - 1];
      Members(xs[..|xs| - 1], key, k) + (if key(x) == k then [x] else [])
  }

  /** The keys, each once, in order of first occurrence. */
  function KeyOrder(xs: seq<string>, key: string -> string): seq<string>
    decreases |xs|
  {
    if xs == [] then []
    else
      var keys := KeyOrder(xs[..|xs| - 1], key);
      var c := key(xs[|xs| - 1]);
      if c in keys then keys else keys + [c]
  }

  /** The finished map from each key to its list. */
  function GroupMap(xs: seq<string>, key: string -> string): map<string, seq<string>> {
    map k | k in KeyOrder(xs, key) :: Members(xs, key, k)
  }

  /** The lists in the order of `keys`, end to end. */
  function Concat(keys: seq<string>, xs: seq<string>, key: string -> string): seq<string>
    decreases |keys|
  {
    if keys == [] then [] else Concat(keys[..|keys| - 1], xs, key) + Members(xs, key, keys[|keys| - 1])
  }

  /** A key that has not occurred yet has no members. */
  lemma {:induction false} MembersOfAbsent(xs: seq<string>, key: string -> string, k: string)
    requires k !in KeyOrder(xs, key)
    ensures Members(xs, key, k) == []
    decreases |xs|
  {
    if xs != [] {
      MembersOfAbsent(xs[..|xs| - 1], key, k);
    }
  }

  /** A key is listed exactly when some element has it. */
  lemma {:induction false} KeyOrderCovers(xs: seq<string>, key: string -> string, k: string)
    ensures k in KeyOrder(xs, key) <==> exists i :: 0 <= i < |xs| && key(xs[i]) == k
    decreases |xs|
  {
    if xs != [] {
      var init := xs[..|xs| - 1];
      KeyOrderCovers(init, key, k);
      if k in KeyOrder(init, key) {
        var i :| 0 <= i < |init| && key(init[i]) == k;
        assert xs[i] == init[i];
      }
      if exists i :: 0 <= i < |xs| && key(xs[i]) == k {
        var i :| 0 <= i < |xs| && key(xs[i]) == k;
        if i < |init| {
          assert init[i] == xs[i];
        }
      }
    }
  }

  /** No key is listed twice. */
  lemma {:induction false} KeyOrderDistinct(xs: seq<string>, key: string -> string)
    ensures forall i, j :: 0 <= i < j < |KeyOrder(xs, key)| ==> KeyOrder(xs, key)[i] != KeyOrder(xs, key)[j]
    decreases |xs|
  {
    if xs != [] {
      KeyOrderDistinct(xs[..|xs| - 1], key);
    }
  }

  /**
   * Keys come in order of first occurrence: wherever a later key occurs, an element with an
   * earlier key has occurred before it.
   */
  lemma {:induction false} KeyOrderFirstOccurrence(xs: seq<string>, key: string -> string, i: nat, j: nat, b: nat)
    requires i < j < |KeyOrder(xs, key)| && b < |xs|
    requires key(xs[b]) == KeyOrder(xs, key)[j]
    ensures exists a :: 0 <= a < b && key(xs[a]) == KeyOrder(xs, key)[i]
    decreases |xs|
  {
    var init := xs[..|xs| - 1];
    var keys, ks := KeyOrder(xs, key), KeyOrder(init, key);
    if j < |ks| {
      assert keys[j] == ks[j] && keys[i] == ks[i];
      var c := b;
      if b == |init| {
        // the last element has the already-listed key ks[j]: an earlier element has it too
        KeyOrderCovers(init, key, ks[j]);
        c :| 0 <= c < |init| && key(init[c]) == ks[j];
      }
      assert init[c] == xs[c];
      KeyOrderFirstOccurrence(init, key, i, j, c);
      var a :| 0 <= a < c && key(init[a]) == ks[i];
      assert xs[a] == init[a];
    } else {
      // keys[j] is new with the last element, which therefore is xs[b]
      assert keys == ks + [keys[j]] && keys[i] == ks[i];
      if b < |init| {
        assert init[b] == xs[b];
        KeyOrderCovers(init, key, keys[j]);
      }
      KeyOrderCovers(init, key, ks[i]);
      var a :| 0 <= a < |init| && key(init[a]) == ks[i];
      assert xs[a] == init[a];
    }
  }

  /** Each list holds only elements of its own key, in the original order. */
  lemma {:induction false} MembersHaveKey(xs: seq<string>, key: string -> string, k: string)
    ensures forall x :: x in Members(xs, key, k) ==> x in xs && key(x) == k
    ensures IsSubsequence(Members(xs, key, k), xs)
    decreases |xs|
  {
    if xs != [] {
      var init, x := xs[..|xs| - 1], xs[|xs| - 1];
      MembersHaveKey(init, key, k);
      assert xs == init + [x];
      if key(x) == k {
        assert Members(xs, key, k) == Members(init, key, k) + [x];
        SubsequenceAppendBoth(Members(init, key, k), init, x);
      } else {
        assert Members(xs, key, k) == Members(init, key, k);
        SubsequenceExtend(Members(init, key, k), init, x);
      }
    }
  }

  /** Every element is in the list of its own key. */
  lemma {:induction false} MembersContain(xs: seq<string>, key: string -> string, i: nat)
    requires i < |xs|
    ensures xs[i] in Members(xs, key, key(xs[i]))
    decreases |xs|
  {
    if i < |xs| - 1 {
      assert xs[..|xs| - 1][i] == xs[i];
      MembersContain(xs[..|xs| - 1], key, i);
    }
  }

  lemma {:induction false} ConcatSkipsOtherKey(keys: seq<string>, xs: seq<string>, key: string -> string, x: string)
    requires key(x) !in keys
    ensures Concat(keys, xs + [x], key) == Concat(keys, xs, key)
    decreases |keys|
  {
    if keys != [] {
      ConcatSkipsOtherKey(keys[..|keys| - 1], xs, key, x);
      assert (xs + [x])[..|xs|] == xs;
    }
  }

  lemma {:induction false} ConcatAddsOwnKey(keys: seq<string>, xs: seq<string>, key: string -> string, x: string)
    requires key(x) in keys
    requires forall i, j :: 0 <= i < j < |keys| ==> keys[i] != keys[j]
    ensures multiset(Concat(keys, xs + [x], key)) == multiset(Concat(keys, xs, key)) + multiset{x}
    decreases |keys|
  {
    var init, k := keys[..|keys| - 1], keys[|keys| - 1];
    assert (xs + [x])[..|xs|] == xs;
    if key(x) == k {
      assert keys == init + [k];
      assert key(x) !in init;
      ConcatSkipsOtherKey(init, xs, key, x);
    } else {
      assert key(x) in init;
      ConcatAddsOwnKey(init, xs, key, x);
    }
  }

  /** Grouping is a partition: the lists, end to end in key order, hold every element exactly as often as it occurs. */
  lemma {:induction false} GroupingIsPartition(xs: seq<string>, key: string -> string)
    ensures multiset(Concat(KeyOrder(xs, key), xs, key)) == multiset(xs)
    decreases |xs|
  {
    if xs != [] {
      var init, x := xs[..|xs| - 1], xs[|xs| - 1];
      var ks := KeyOrder(init, key);
      var c := key(x);
      GroupingIsPartition(init, key);
      KeyOrderDistinct(init, key);
      assert xs == init + [x];
      if c in ks {
        ConcatAddsOwnKey(ks, init, key, x);
      } else {
        ConcatNewKey(init, key, x);
      }
    }
  }

  /** An element with a new key adds that key, with its one-element list, at the end. */
  lemma ConcatNewKey(init: seq<string>, key: string -> string, x: string)
    requires key(x) !in KeyOrder(init, key)
    ensures Concat(KeyOrder(init + [x], key), init + [x], key) == Concat(KeyOrder(init, key), init, key) + [x]
  {
    var xs, ks, c := init + [x], KeyOrder(init, key), key(x);
    assert xs[..|xs| - 1] == init;
    assert KeyOrder(xs, key) == ks + [c];
    ConcatSkipsOtherKey(ks, init, key, x);
    MembersOfAbsent(init, key, c);
    assert Members(xs, key, c) == [x];
    assert (ks + [c])[..|ks|] == ks;
  }

  /** The grouping loop: each element appended to the list of its key, a new key listed at the end. */
  method GroupBy(xs: seq<string>, key: string -> string) returns (keys: seq<string>, groups: map<string, seq<string>>)
    ensures keys == KeyOrder(xs, key)
    ensures groups == GroupMap(xs, key)
  {
    keys, groups := [], map[];
    var i := 0;
    while i < |xs|
      invariant 0 <= i <= |xs|
      invariant keys == KeyOrder(xs[..i], key)
      invariant forall k :: k in groups <==> k in keys
      invariant forall k :: k in groups ==> groups[k] == Members(xs[..i], key, k)
    {
      var x := xs[i];
      var k := key(x);
      assert xs[..i + 1][..i] == xs[..i];
      if k in groups {
        groups := groups[k := groups[k] + [x]];
      } else {
        MembersOfAbsent(xs[..i], key, k);
        keys := keys + [k];
        groups := groups[k := [x]];
      }
      i := i + 1;
    }
    assert xs[..|xs|] == xs;
  }
}
