/**
 * `applyDependencyOperations`: the add, remove and change lists computed for
 * one dependency field, replayed onto a name-to-version object.
 */
module DependencyOperations {
  import opened Wrappers
  import opened Json

  /** One entry of an operation list; a `remove` entry's version is never read. */
  datatype Dep = Dep(name: string, version: string)

  /** The operations for one dependency field, as the three-way classifier hands them over. */
  datatype Operations = Operations(add: seq<Dep>, remove: seq<Dep>, change: seq<Dep>)

  function Names(ds: seq<Dep>): set<string>
  {
    set d | d in ds :: d.name
  }

  /** The version of the last entry of `ds` naming `n`, if any. */
  function LastVersion(ds: seq<Dep>, n: string): (v: Option<string>)
    ensures v.Some? <==> n in Names(ds)
    decreases |ds|
  {
    assert ds != [] ==> Names(ds) == Names(ds[..|ds| - 1]) + {ds[|ds| - 1].name} by {
      if ds != [] {
        assert ds == ds[..|ds| - 1] + [ds[|ds| - 1]];
      }
    }
    if ds == [] then None
    else if ds[|ds| - 1].name == n then Some(ds[|ds| - 1].version)
    else LastVersion(ds[..|ds| - 1], n)
  }

  /** `ds.forEach(dep => p[dep.name] = dep.version)`. */
  function AssignAll(p: Props, ds: seq<Dep>): Props
    decreases |ds|
  {
    if ds == [] then p
    else
      var d := ds[|ds| - 1];
      Put(AssignAll(p, ds[..|ds| - 1]), d.name, Str(d.version))
  }

  /** `ds.forEach(dep => delete p[dep.name])`. */
  function DeleteAll(p: Props, ds: seq<Dep>): Props
    decreases |ds|
  {
    if ds == [] then p
    else Remove(DeleteAll(p, ds[..|ds| - 1]), ds[|ds| - 1].name)
  }

  /** The three lists in the order the source replays them: adds, then removes, then changes. */
  function Applied(ops: Operations, p: Props): Props
  {
    AssignAll(DeleteAll(AssignAll(p, ops.add), ops.remove), ops.change)
  }

  /** What `LastVersion` finds is the last entry of the list for that name. */
  lemma {:induction false} LastVersionSpec(ds: seq<Dep>, n: string)
    ensures LastVersion(ds, n).Some? ==>
              exists i :: 0 <= i < |ds| && ds[i] == Dep(n, LastVersion(ds, n).value) &&
                          forall j :: i < j < |ds| ==> ds[j].name != n
  {
    if ds != [] {
      var front := ds[..|ds| - 1];
      assert ds == front + [ds[|ds| - 1]];
      LastVersionSpec(front, n);
      if ds[|ds| - 1].name != n && LastVersion(ds, n).Some? {
        var i :| 0 <= i < |front| && front[i] == Dep(n, LastVersion(front, n).value) &&
                 forall j :: i < j < |front| ==> front[j].name != n;
        assert ds[i] == front[i];
      }
    }
  }

  /** After a run of assignments a name holds its last assigned version; an unnamed one is untouched. */
  lemma {:induction false} AssignAllEffect(p: Props, ds: seq<Dep>, n: string)
    ensures DistinctKeys(p) ==> DistinctKeys(AssignAll(p, ds))
    ensures n in Keys(AssignAll(p, ds)) <==> n in Keys(p) || n in Names(ds)
    ensures n in Names(ds) ==> Get(AssignAll(p, ds), n) == Str(LastVersion(ds, n).value)
    ensures n !in Names(ds) ==> Get(AssignAll(p, ds), n) == Get(p, n)
  {
    if ds != [] {
      var front := ds[..|ds| - 1];
      var d := ds[|ds| - 1];
      assert ds == front + [d];
      assert Names(ds) == Names(front) + {d.name};
      AssignAllEffect(p, front, n);
      if DistinctKeys(p) {
        PutDistinct(AssignAll(p, front), d.name, Str(d.version));
      }
    }
  }

  /** After a run of deletions a named name is absent; an unnamed one is untouched. */
  lemma {:induction false} DeleteAllEffect(p: Props, ds: seq<Dep>, n: string)
    ensures DistinctKeys(p) ==> DistinctKeys(DeleteAll(p, ds))
    ensures n in Keys(DeleteAll(p, ds)) <==> n in Keys(p) && n !in Names(ds)
    ensures Get(DeleteAll(p, ds), n) == if n in Names(ds) then Undefined else Get(p, n)
  {
    if ds != [] {
      var front := ds[..|ds| - 1];
      var d := ds[|ds| - 1];
      assert ds == front + [d];
      assert Names(ds) == Names(front) + {d.name};
      DeleteAllEffect(p, front, n);
      if DistinctKeys(p) {
        RemoveDistinct(DeleteAll(p, front), d.name);
      }
    }
  }

  /**
   * The outcome for one name: a change wins, then a remove, then an add
   * (theirs' edits win over ours'); a name no list mentions keeps its
   * value, or stays absent.
   */
  lemma {:induction false} ApplyOperationsEffect(ops: Operations, p: Props, n: string)
    ensures DistinctKeys(p) ==> DistinctKeys(Applied(ops, p))
    ensures n !in Names(ops.add) + Names(ops.remove) + Names(ops.change) ==>
              (n in Keys(Applied(ops, p)) <==> n in Keys(p)) && Get(Applied(ops, p), n) == Get(p, n)
    ensures n in Names(ops.change) ==>
              n in Keys(Applied(ops, p)) && Get(Applied(ops, p), n) == Str(LastVersion(ops.change, n).value)
    ensures n in Names(ops.remove) && n !in Names(ops.change) ==> n !in Keys(Applied(ops, p))
    ensures n in Names(ops.add) && n !in Names(ops.remove) + Names(ops.change) ==>
              n in Keys(Applied(ops, p)) && Get(Applied(ops, p), n) == Str(LastVersion(ops.add, n).value)
  {
    var added := AssignAll(p, ops.add);
    var removed := DeleteAll(added, ops.remove);
    AssignAllEffect(p, ops.add, n);
    DeleteAllEffect(added, ops.remove, n);
    AssignAllEffect(removed, ops.change, n);
    assert Applied(ops, p) == AssignAll(removed, ops.change);
  }

  /** Replaying the operations twice is the same, name by name, as replaying them once. */
  lemma {:induction false} ApplyOperationsIdempotent(ops: Operations, p: Props, n: string)
    ensures (n in Keys(Applied(ops, Applied(ops, p))) <==> n in Keys(Applied(ops, p)))
    ensures Get(Applied(ops, Applied(ops, p)), n) == Get(Applied(ops, p), n)
  {
    ApplyOperationsEffect(ops, p, n);
    ApplyOperationsEffect(ops, Applied(ops, p), n);
  }

  /** The outcome depends only on which names are present and their values, not on their order. */
  lemma AppliedByContent(ops: Operations, p: Props, q: Props)
    requires SameContent(p, q)
    ensures SameContent(Applied(ops, p), Applied(ops, q))
  {
    forall n ensures (n in Keys(Applied(ops, p)) <==> n in Keys(Applied(ops, q))) &&
                     Get(Applied(ops, p), n) == Get(Applied(ops, q), n) {
      ApplyOperationsEffect(ops, p, n);
      ApplyOperationsEffect(ops, q, n);
    }
  }

  /** `ds.forEach(dep => deps[dep.name] = dep.version)`, changing `deps` in place. */
  method AssignEach(ds: seq<Dep>, deps: JsObject)
    requires deps.Valid()
    modifies deps
    ensures deps.Valid()
    ensures deps.props == AssignAll(old(deps.props), ds)
  {
    for i := 0 to |ds|
      invariant deps.Valid()
      invariant deps.props == AssignAll(old(deps.props), ds[..i])
    {
      assert ds[..i + 1][..i] == ds[..i];
      deps.Assign(ds[i].name, Str(ds[i].version));
    }
    assert ds[..|ds|] == ds;
  }

  /** `ds.forEach(dep => delete deps[dep.name])`, changing `deps` in place. */
  method DeleteEach(ds: seq<Dep>, deps: JsObject)
    requires deps.Valid()
    modifies deps
    ensures deps.Valid()
    ensures deps.props == DeleteAll(old(deps.props), ds)
  {
    for i := 0 to |ds|
      invariant deps.Valid()
      invariant deps.props == DeleteAll(old(deps.props), ds[..i])
    {
      assert ds[..i + 1][..i] == ds[..i];
      deps.Delete(ds[i].name);
    }
    assert ds[..|ds|] == ds;
  }

  /** `applyDependencyOperations(operations, deps)`, changing `deps` in place. */
  method ApplyDependencyOperations(ops: Operations, deps: JsObject)
    requires deps.Valid()
    modifies deps
    ensures deps.Valid()
    ensures deps.props == Applied(ops, old(deps.props))
  {
    AssignEach(ops.add, deps);
    DeleteEach(ops.remove, deps);
    AssignEach(ops.change, deps);
  }
}
