/** Worked merges of single dependency fields, as the code performs them. */
module Scenarios {
  import opened Json
  import opened KeyOrder
  import opened SortKeys
  import opened DependencyOperations
  import opened PackageMerge

  /** Theirs adds a dependency to a field that neither base nor ours has: the field appears with it. */
  lemma AddToMissingField()
    ensures FieldOutcome(Operations([Dep("foo", "1.0.0")], [], []), Undefined) == Obj([("foo", Str("1.0.0"))])
  {
  }

  /** Ours added a dependency theirs never touched: with no operations it survives, and keys come out sorted. */
  lemma LocalAdditionSurvives()
    ensures FieldOutcome(Operations([], [], []), Obj([("b", Str("2.0.0")), ("a", Str("1.0.0"))]))
            == Obj([("a", Str("1.0.0")), ("b", Str("2.0.0"))])
  {
    var ours := [("b", Str("2.0.0")), ("a", Str("1.0.0"))];
    var sorted := [("a", Str("1.0.0")), ("b", Str("2.0.0"))];
    assert Applied(Operations([], [], []), ours) == ours by {
    }
    assert SortStrings(Keys(ours)) == ["a", "b"] by {
      assert Keys(ours) == ["b", "a"];
      assert SortStrings(["b", "a"]) == ["a", "b"];
    }
    assert Rebuild(ours, ["a", "b"]) == sorted by {
      assert Rebuild(ours, ["a"]) == [("a", Str("1.0.0"))];
    }
  }

  /** Ours and theirs both changed the same dependency: theirs' version wins. */
  lemma TheirsWinsCollision()
    ensures FieldOutcome(Operations([], [], [Dep("a", "2.0.0")]), Obj([("a", Str("1.1.0"))]))
            == Obj([("a", Str("2.0.0"))])
  {
  }

  /** Theirs removed the only dependency: the field is dropped rather than left as `{}`. */
  lemma RemovalDropsEmptyField()
    ensures FieldOutcome(Operations([], [Dep("a", "1.0.0")], []), Obj([("a", Str("1.0.0"))])) == Undefined
  {
  }
}
