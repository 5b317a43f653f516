/** `sortObjectKeys`: a fresh object with the same properties, keys in ascending order. */
module SortKeys {
  import opened Json
  import opened KeyOrder

  /**
   * The `reduce` step: starting from `{}`, assigns `sorted[key] = obj[key]`
   * for each key of `ks` in turn.
   */
  function Rebuild(obj: Props, ks: seq<string>): Props
    decreases |ks|
  {
    if ks == [] then []
    else
      var k := ks[|ks| - 1];
      Put(Rebuild(obj, ks[..|ks| - 1]), k, Get(obj, k))
  }

  /** Rebuilding from distinct keys lists exactly those keys, in that order, each with its value in `obj`. */
  lemma {:induction false} RebuildSpec(obj: Props, ks: seq<string>)
    requires NoDup(ks)
    ensures Keys(Rebuild(obj, ks)) == ks
    ensures forall k :: Get(Rebuild(obj, ks), k) == if k in ks then Get(obj, k) else Undefined
  {
    if ks != [] {
      var front := ks[..|ks| - 1];
      assert ks == front + [ks[|ks| - 1]];
      assert NoDup(front);
      RebuildSpec(obj, front);
    }
  }

  function SortObjectKeys(obj: Props): (sorted: Props)
    requires DistinctKeys(obj)
    ensures DistinctKeys(sorted)
    ensures StrictlyAscending(Keys(sorted))
    ensures multiset(Keys(sorted)) == multiset(Keys(obj))
    ensures forall k :: Get(sorted, k) == Get(obj, k)
  {
    var ks := SortStrings(Keys(obj));
    SortStringsSorts(Keys(obj));
    AscendingDistinct(ks);
    RebuildSpec(obj, ks);
    assert forall k :: k in ks <==> k in Keys(obj) by {
      forall k ensures k in ks <==> k in Keys(obj) {
        assert k in ks <==> k in multiset(ks);
      }
    }
    Rebuild(obj, ks)
  }

  /** The sorted object depends only on the keys and their values, not on their order. */
  lemma SortObjectKeysCanonical(a: Props, b: Props)
    requires DistinctKeys(a) && DistinctKeys(b) && SameContent(a, b)
    ensures SortObjectKeys(a) == SortObjectKeys(b)
  {
    var sa := SortObjectKeys(a);
    var sb := SortObjectKeys(b);
    forall k ensures k in Keys(sa) <==> k in Keys(sb) {
      assert k in Keys(sa) <==> k in multiset(Keys(sa));
      assert k in Keys(sb) <==> k in multiset(Keys(sb));
      assert k in Keys(a) <==> k in multiset(Keys(a));
      assert k in Keys(b) <==> k in multiset(Keys(b));
    }
    AscendingUnique(Keys(sa), Keys(sb));
    PropsByContent(sa, sb);
  }
}
