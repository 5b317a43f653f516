/**
 * The order `Array.prototype.sort` puts strings in when no comparator is
 * given, and a sort by it.
 */
module KeyOrder {
  import opened Json

  /** `a` sorts strictly before `b`: compared character by character, a proper prefix first. */
  predicate Below(a: string, b: string)
  {
    b != [] && (a == [] || a[0] < b[0] || (a[0] == b[0] && Below(a[1..], b[1..])))
  }

  lemma {:induction false} BelowIrreflexive(a: string)
    ensures !Below(a, a)
  {
    if a != [] {
      BelowIrreflexive(a[1..]);
    }
  }

  lemma {:induction false} BelowTransitive(a: string, b: string, c: string)
    requires Below(a, b) && Below(b, c)
    ensures Below(a, c)
  {
    if a != [] && a[0] == b[0] && b[0] == c[0] {
      BelowTransitive(a[1..], b[1..], c[1..]);
    }
  }

  lemma {:induction false} BelowTotal(a: string, b: string)
    ensures a == b || Below(a, b) || Below(b, a)
  {
    if a != [] && b != [] && a[0] == b[0] {
      BelowTotal(a[1..], b[1..]);
      if a[1..] == b[1..] {
        assert a == [a[0]] + a[1..] && b == [b[0]] + b[1..];
      }
    }
  }

  /** Every key sorts strictly before every later one. */
  predicate StrictlyAscending(ks: seq<string>)
  {
    forall i, j :: 0 <= i < j < |ks| ==> Below(ks[i], ks[j])
  }

  /** Places `x` in front of the first element it sorts before. */
  function Insert(x: string, s: seq<string>): seq<string>
  {
    if s == [] then [x]
    else if Below(s[0], x) then [s[0]] + Insert(x, s[1..])
    else [x] + s
  }

  /** `ks.slice().sort()` on keys of one object. */
  function SortStrings(s: seq<string>): seq<string>
  {
    if s == [] then [] else Insert(s[0], SortStrings(s[1..]))
  }

  /** Putting `a` in front of a strictly ascending sequence whose elements all sort after it keeps it strictly ascending. */
  lemma AscendingCons(a: string, t: seq<string>)
    requires StrictlyAscending(t)
    requires forall y :: y in t ==> Below(a, y)
    ensures StrictlyAscending([a] + t)
  {
    var r := [a] + t;
    forall i, j | 0 <= i < j < |r| ensures Below(r[i], r[j]) {
      if i == 0 {
        assert r[j] == t[j - 1];
      } else {
        assert r[i] == t[i - 1] && r[j] == t[j - 1];
      }
    }
  }

  lemma {:induction false} InsertPermutes(x: string, s: seq<string>)
    ensures multiset(Insert(x, s)) == multiset(s) + multiset{x}
  {
    if s != [] {
      assert s == [s[0]] + s[1..];
      if Below(s[0], x) {
        InsertPermutes(x, s[1..]);
      }
    }
  }

  lemma {:induction false} InsertAscending(x: string, s: seq<string>)
    requires StrictlyAscending(s) && x !in s
    ensures StrictlyAscending(Insert(x, s))
  {
    if s == [] {
      return;
    }
    assert s == [s[0]] + s[1..];
    if Below(s[0], x) {
      var t := Insert(x, s[1..]);
      InsertAscending(x, s[1..]);
      InsertPermutes(x, s[1..]);
      forall y | y in t ensures Below(s[0], y) {
        assert y in multiset(t);
        if y != x {
          assert y in s[1..];
          var m :| 0 <= m < |s[1..]| && s[1..][m] == y;
          assert s[m + 1] == y;
        }
      }
      AscendingCons(s[0], t);
    } else {
      BelowTotal(x, s[0]);
      forall y | y in s ensures Below(x, y) {
        var m :| 0 <= m < |s| && s[m] == y;
        if m > 0 {
          BelowTransitive(x, s[0], y);
        }
      }
      AscendingCons(x, s);
    }
  }

  /** Sorting keeps the same keys and puts distinct keys in strictly ascending order. */
  lemma {:induction false} SortStringsSorts(s: seq<string>)
    ensures multiset(SortStrings(s)) == multiset(s)
    ensures NoDup(s) ==> StrictlyAscending(SortStrings(s))
  {
    if s != [] {
      assert s == [s[0]] + s[1..];
      SortStringsSorts(s[1..]);
      InsertPermutes(s[0], SortStrings(s[1..]));
      if NoDup(s) {
        assert NoDup(s[1..]);
        assert s[0] !in multiset(SortStrings(s[1..]));
        InsertAscending(s[0], SortStrings(s[1..]));
      }
    }
  }

  /** Strictly ascending keys are distinct. */
  lemma AscendingDistinct(ks: seq<string>)
    requires StrictlyAscending(ks)
    ensures NoDup(ks)
  {
    forall i, j | 0 <= i < j < |ks| ensures ks[i] != ks[j] {
      BelowIrreflexive(ks[i]);
    }
  }

  /** A set of strings has one strictly ascending listing. */
  lemma {:induction false} AscendingUnique(xs: seq<string>, ys: seq<string>)
    requires StrictlyAscending(xs) && StrictlyAscending(ys)
    requires forall k :: k in xs <==> k in ys
    ensures xs == ys
    decreases |xs|
  {
    assert xs != [] ==> xs[0] in ys;
    assert ys != [] ==> ys[0] in xs;
    if xs != [] {
      var i :| 0 <= i < |xs| && xs[i] == ys[0];
      var j :| 0 <= j < |ys| && ys[j] == xs[0];
      if 0 < i && 0 < j {
        BelowTransitive(xs[0], ys[0], xs[0]);
        BelowIrreflexive(xs[0]);
      }
      assert xs[0] == ys[0];
      forall k ensures k in xs[1..] <==> k in ys[1..] {
        BelowIrreflexive(k);
        LeadTail(xs, k);
        LeadTail(ys, k);
      }
      AscendingUnique(xs[1..], ys[1..]);
      assert xs == [xs[0]] + xs[1..] && ys == [ys[0]] + ys[1..];
    }
  }

  /** In a strictly ascending list, the later elements are the others. */
  lemma LeadTail(xs: seq<string>, k: string)
    requires StrictlyAscending(xs) && xs != []
    ensures k in xs[1..] <==> k in xs && k != xs[0]
  {
    if k in xs[1..] {
      var i :| 0 <= i < |xs[1..]| && xs[1..][i] == k;
      assert xs[i + 1] == k;
      BelowIrreflexive(k);
    }
    if k in xs && k != xs[0] {
      var i :| 0 <= i < |xs| && xs[i] == k;
      assert xs[1..][i - 1] == k;
    }
  }
}
