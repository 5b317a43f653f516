/**
 * JavaScript values as the merge sees them: what `JSON.parse` builds, plus
 * `undefined`, which a property read of a missing key yields. An object is
 * the list of its own properties in enumeration order; keys are distinct.
 */
module Json {

  datatype Value =
    | Undefined
    | Null
    | Bool(b: bool)
    | Number(n: real)
    | Str(s: string)
    | Arr(items: seq<Value>)
    | Obj(props: seq<(string, Value)>)

  /** The own properties of an object, in the order `Object.keys` lists them. */
  type Props = seq<(string, Value)>

  /** JavaScript's ToBoolean: `undefined`, `null`, `false`, `0` and `""` are falsy. */
  predicate Truthy(v: Value)
  {
    match v
    case Undefined => false
    case Null => false
    case Bool(b) => b
    case Number(n) => n != 0.0
    case Str(s) => s != ""
    case Arr(_) => true
    case Obj(_) => true
  }

  predicate NoDup<T(==)>(s: seq<T>)
  {
    forall i, j :: 0 <= i < j < |s| ==> s[i] != s[j]
  }

  /** An element of a non-empty sequence is in its front part or is its last element. */
  lemma LastSplit<T>(s: seq<T>, x: T)
    requires s != []
    ensures x in s <==> x in s[..|s| - 1] || x == s[|s| - 1]
  {
    if x in s {
      var j :| 0 <= j < |s| && s[j] == x;
      if j < |s| - 1 {
        assert s[..|s| - 1][j] == x;
      }
    }
  }

  /** `Object.keys(p)`. */
  function Keys(p: Props): (ks: seq<string>)
    ensures |ks| == |p|
    ensures forall i :: 0 <= i < |p| ==> ks[i] == p[i].0
  {
    if p == [] then [] else [p[0].0] + Keys(p[1..])
  }

  predicate DistinctKeys(p: Props)
  {
    NoDup(Keys(p))
  }

  /** An object with one more property in front has distinct keys exactly when the rest does and the new key is fresh. */
  lemma {:induction false} DistinctCons(x: (string, Value), q: Props)
    ensures DistinctKeys([x] + q) <==> x.0 !in Keys(q) && DistinctKeys(q)
  {
    var ks := Keys([x] + q);
    var qs := Keys(q);
    assert ([x] + q)[1..] == q;
    assert ks == [x.0] + qs;
    if x.0 !in qs && NoDup(qs) {
      forall i, j | 0 <= i < j < |ks| ensures ks[i] != ks[j] {
        assert ks[j] == qs[j - 1];
        if i > 0 {
          assert ks[i] == qs[i - 1];
        }
      }
    }
    if NoDup(ks) {
      forall i, j | 0 <= i < j < |qs| ensures qs[i] != qs[j] {
        assert ks[i + 1] == qs[i] && ks[j + 1] == qs[j];
      }
    }
  }

  /** The property read `p[k]`: `undefined` when there is no such key. */
  function Get(p: Props, k: string): (v: Value)
    ensures k !in Keys(p) ==> v == Undefined
  {
    if p == [] then Undefined
    else if p[0].0 == k then p[0].1
    else Get(p[1..], k)
  }

  /**
   * The assignment `p[k] = v`: an existing key keeps its place and takes
   * the new value, a new key is appended after all the others.
   */
  function Put(p: Props, k: string, v: Value): (r: Props)
    ensures Keys(r) == if k in Keys(p) then Keys(p) else Keys(p) + [k]
    ensures forall j :: Get(r, j) == if j == k then v else Get(p, j)
  {
    if p == [] then [(k, v)]
    else if p[0].0 == k then [(k, v)] + p[1..]
    else [p[0]] + Put(p[1..], k, v)
  }

  /** The statement `delete p[k]`: a missing key is no error. */
  function Remove(p: Props, k: string): (r: Props)
    ensures forall j :: j in Keys(r) <==> j != k && j in Keys(p)
    ensures forall j :: Get(r, j) == if j == k then Undefined else Get(p, j)
  {
    if p == [] then []
    else if p[0].0 == k then Remove(p[1..], k)
    else [p[0]] + Remove(p[1..], k)
  }

  /** Deletion never duplicates a key. */
  lemma {:induction false} RemoveDistinct(p: Props, k: string)
    requires DistinctKeys(p)
    ensures DistinctKeys(Remove(p, k))
  {
    if p != [] {
      assert p == [p[0]] + p[1..];
      DistinctCons(p[0], p[1..]);
      RemoveDistinct(p[1..], k);
      if p[0].0 != k {
        DistinctCons(p[0], Remove(p[1..], k));
      }
    }
  }

  /** Assignment never duplicates a key. */
  lemma PutDistinct(p: Props, k: string, v: Value)
    requires DistinctKeys(p)
    ensures DistinctKeys(Put(p, k, v))
  {
  }

  /** Assigning a key twice is the same as assigning it once, the second value, in the same place. */
  lemma {:induction false} PutPut(p: Props, k: string, a: Value, b: Value)
    ensures Put(Put(p, k, a), k, b) == Put(p, k, b)
  {
    if p != [] && p[0].0 != k {
      PutPut(p[1..], k, a, b);
    }
  }

  /** Deleting a key just assigned leaves no trace of the assignment. */
  lemma {:induction false} RemovePut(p: Props, k: string, v: Value)
    ensures Remove(Put(p, k, v), k) == Remove(p, k)
  {
    if p != [] && p[0].0 != k {
      RemovePut(p[1..], k, v);
    }
  }

  /** `a` is `b` with some of its elements left out, the rest in their order. */
  predicate Subsequence<T(==)>(a: seq<T>, b: seq<T>)
    decreases |b|
  {
    a == [] || (b != [] && ((a[0] == b[0] && Subsequence(a[1..], b[1..])) || Subsequence(a, b[1..])))
  }

  /** Two objects with the same keys, each with the same value, whatever their order. */
  ghost predicate SameContent(p: Props, q: Props)
  {
    forall k :: (k in Keys(p) <==> k in Keys(q)) && Get(p, k) == Get(q, k)
  }

  /** Objects listing the same keys in the same order, with the same values, are equal. */
  lemma {:induction false} PropsByContent(p: Props, q: Props)
    requires DistinctKeys(p) && Keys(p) == Keys(q)
    requires forall k :: Get(p, k) == Get(q, k)
    ensures p == q
  {
    if p != [] {
      var x := p[0].0;
      assert p == [p[0]] + p[1..] && q == [q[0]] + q[1..];
      assert Keys(p)[0] == x == q[0].0;
      assert Get(p, x) == p[0].1 && Get(q, x) == q[0].1;
      DistinctCons(p[0], p[1..]);
      assert Keys(p[1..]) == Keys(p)[1..] == Keys(q[1..]);
      forall k ensures Get(p[1..], k) == Get(q[1..], k) {
        if k != x {
          assert Get(p, k) == Get(p[1..], k) && Get(q, k) == Get(q[1..], k);
        }
      }
      PropsByContent(p[1..], q[1..]);
    }
  }

  /**
   * What `JSON.stringify` keeps of an object's properties: those whose
   * value is `undefined` are dropped, and the others stay in their order.
   */
  function OmitUndefined(p: Props): (r: Props)
    requires DistinctKeys(p)
    ensures DistinctKeys(r)
    ensures forall j :: Get(r, j) == Get(p, j)
    ensures forall j :: j in Keys(r) <==> Get(p, j) != Undefined
    ensures Subsequence(Keys(r), Keys(p))
  {
    if p == [] then []
    else
      assert p == [p[0]] + p[1..];
      DistinctCons(p[0], p[1..]);
      var rest := OmitUndefined(p[1..]);
      assert Keys(p)[1..] == Keys(p[1..]);
      if p[0].1 == Undefined then rest
      else
        DistinctCons(p[0], rest);
        assert ([p[0]] + rest)[1..] == rest;
        [p[0]] + rest
  }

  /** A JavaScript object that the merge changes in place. */
  class JsObject {
    var props: Props

    ghost predicate Valid()
      reads this
    {
      DistinctKeys(props)
    }

    constructor (p: Props)
      requires DistinctKeys(p)
      ensures Valid() && props == p
    {
      props := p;
    }

    /** `this[k]`. */
    function Property(k: string): Value
      reads this
    {
      Get(props, k)
    }

    /** `Object.keys(this).length`. */
    function KeyCount(): nat
      reads this
    {
      |Keys(props)|
    }

    /** `this[k] = v`. */
    method Assign(k: string, v: Value)
      requires Valid()
      modifies this
      ensures Valid()
      ensures props == Put(old(props), k, v)
    {
      PutDistinct(props, k, v);
      props := Put(props, k, v);
    }

    /** `delete this[k]`. */
    method Delete(k: string)
      requires Valid()
      modifies this
      ensures Valid()
      ensures props == Remove(old(props), k)
    {
      RemoveDistinct(props, k);
      props := Remove(props, k);
    }
  }
}
