/**
 * `mergeDependencyChanges` and the reassembly in `mergePackageJson`: each
 * designated dependency field of a clone of ours gets the operations
 * replayed onto it, then is dropped when empty or re-sorted; the result of
 * the generic merge then has each designated field overwritten with that.
 */
module PackageMerge {
  import opened Wrappers
  import opened Json
  import opened KeyOrder
  import opened SortKeys
  import opened DependencyOperations

  /** The designated fields used when the caller names none. */
  const DefaultDependencyKeys: seq<string> :=
    ["dependencies", "devDependencies", "peerDependencies", "bundledDependencies", "optionalDependencies"]

  /** A designated field the operations list for which is missing: reading `.add` of `undefined` throws. */
  datatype MergeError = MissingOperations(key: string)

  /**
   * `_dependencyKeys ? _dependencyKeys : dependencyKeys`: an array, even an
   * empty one, is truthy, so only a missing list falls back to the default.
   */
  function DependencyKeys(keysArg: Option<seq<string>>): seq<string>
  {
    match keysArg
    case None => DefaultDependencyKeys
    case Some(ks) => ks
  }

  /** A designated field the merge can work on: missing or falsy, or an object. */
  predicate DependencyField(v: Value)
  {
    !Truthy(v) || (v.Obj? && DistinctKeys(v.props))
  }

  /** The working map for a field: `{}` stands in for a missing or falsy one. */
  function DepsOf(v: Value): (deps: Props)
    requires DependencyField(v)
    ensures DistinctKeys(deps)
    ensures !Truthy(v) ==> deps == []
  {
    if Truthy(v) then v.props else []
  }

  /**
   * What a designated field holds once its operations are replayed: nothing
   * when no entry is left, otherwise the entries sorted by name.
   */
  function FieldOutcome(ops: Operations, v: Value): (out: Value)
    requires DependencyField(v)
    ensures out == Undefined <==> Applied(ops, DepsOf(v)) == []
    ensures out == Undefined || (out.Obj? && out.props != [] && DistinctKeys(out.props))
    ensures out.Obj? ==> StrictlyAscending(Keys(out.props))
    ensures out.Obj? ==> forall n :: Get(out.props, n) == Get(Applied(ops, DepsOf(v)), n)
    ensures out.Obj? ==> multiset(Keys(out.props)) == multiset(Keys(Applied(ops, DepsOf(v))))
  {
    var applied := Applied(ops, DepsOf(v));
    ApplyOperationsEffect(ops, DepsOf(v), "");
    if applied == [] then Undefined
    else
      var sorted := SortObjectKeys(applied);
      assert |Keys(sorted)| == |multiset(Keys(sorted))| == |Keys(applied)|;
      Obj(sorted)
  }

  /**
   * Replaying a field's operations onto its own outcome changes nothing:
   * what is left is already sorted, and the operations leave their names
   * as they found them the first time.
   */
  lemma FieldOutcomeIdempotent(ops: Operations, v: Value)
    requires DependencyField(v)
    ensures DependencyField(FieldOutcome(ops, v))
    ensures FieldOutcome(ops, FieldOutcome(ops, v)) == FieldOutcome(ops, v)
  {
    var a1 := Applied(ops, DepsOf(v));
    var w := FieldOutcome(ops, v);
    var a2 := Applied(ops, DepsOf(w));
    ApplyOperationsEffect(ops, DepsOf(v), "");
    ApplyOperationsEffect(ops, DepsOf(w), "");
    assert SameContent(DepsOf(w), a1) by {
      if w.Obj? {
        forall k ensures k in Keys(w.props) <==> k in Keys(a1) {
          assert k in Keys(w.props) <==> k in multiset(Keys(w.props));
          assert k in Keys(a1) <==> k in multiset(Keys(a1));
        }
      }
    }
    AppliedByContent(ops, DepsOf(w), a1);
    forall n ensures (n in Keys(Applied(ops, a1)) <==> n in Keys(a1)) && Get(Applied(ops, a1), n) == Get(a1, n) {
      ApplyOperationsIdempotent(ops, DepsOf(v), n);
    }
    assert SameContent(a2, a1);
    assert a2 == [] <==> a1 == [] by {
      if a2 != [] {
        assert a2[0].0 in Keys(a2);
      }
      if a1 != [] {
        assert a1[0].0 in Keys(a1);
      }
    }
    if a1 != [] {
      SortObjectKeysCanonical(a2, a1);
    }
  }

  /** One iteration of the loop over designated keys, on the clone `p`. */
  function MergeField(ops: Operations, p: Props, key: string): (r: Props)
    requires DistinctKeys(p) && DependencyField(Get(p, key))
    ensures DistinctKeys(r)
    ensures forall k :: Get(r, k) == if k == key then FieldOutcome(ops, Get(p, key)) else Get(p, k)
    ensures forall k :: k != key ==> (k in Keys(r) <==> k in Keys(p))
    ensures key in Keys(r) <==> FieldOutcome(ops, Get(p, key)) != Undefined
  {
    var out := FieldOutcome(ops, Get(p, key));
    if out == Undefined then
      RemoveDistinct(p, key);
      Remove(p, key)
    else
      PutDistinct(p, key, out);
      Put(p, key, out)
  }

  /** The loop over designated keys, on the clone `p`, stopping at the first key without operations. */
  function MergeFields(opsByKey: map<string, Operations>, p: Props, keys: seq<string>): (r: Result<Props, MergeError>)
    requires DistinctKeys(p)
    requires forall k :: k in keys ==> DependencyField(Get(p, k))
    ensures r.Ok? <==> forall k :: k in keys ==> k in opsByKey
    ensures r.Err? ==> r.error.key in keys && r.error.key !in opsByKey
    ensures r.Ok? ==> DistinctKeys(r.value)
    ensures r.Ok? ==> forall k :: k in keys ==> DependencyField(Get(r.value, k))
    ensures r.Ok? ==> forall k :: k !in keys ==> Get(r.value, k) == Get(p, k) && (k in Keys(r.value) <==> k in Keys(p))
    decreases |keys|
  {
    if keys == [] then Ok(p)
    else
      var front := keys[..|keys| - 1];
      var key := keys[|keys| - 1];
      assert forall k :: k in keys <==> k in front || k == key by {
        forall k ensures k in keys <==> k in front || k == key {
          LastSplit(keys, k);
        }
      }
      match MergeFields(opsByKey, p, front)
      case Err(e) => Err(e)
      case Ok(q) =>
        if key !in opsByKey then Err(MissingOperations(key))
        else Ok(MergeField(opsByKey[key], q, key))
  }

  /** Once the loop has failed, the later keys do not change the outcome. */
  lemma {:induction false} MergeFieldsErrStays(opsByKey: map<string, Operations>, p: Props, keys: seq<string>, i: nat)
    requires DistinctKeys(p)
    requires forall k :: k in keys ==> DependencyField(Get(p, k))
    requires i <= |keys|
    requires MergeFields(opsByKey, p, keys[..i]).Err?
    ensures MergeFields(opsByKey, p, keys) == MergeFields(opsByKey, p, keys[..i])
    decreases |keys| - i
  {
    if i < |keys| {
      assert keys[..i + 1][..i] == keys[..i];
      MergeFieldsErrStays(opsByKey, p, keys, i + 1);
    } else {
      assert keys[..i] == keys;
    }
  }

  /** One more turn of the loop: the field it works on has a shape the merge handles, and the outcome extends by `MergeField` or fails. */
  lemma MergeFieldsStep(opsByKey: map<string, Operations>, p: Props, keys: seq<string>, i: nat)
    requires DistinctKeys(p)
    requires forall k :: k in keys ==> DependencyField(Get(p, k))
    requires i < |keys| && MergeFields(opsByKey, p, keys[..i]).Ok?
    ensures DistinctKeys(MergeFields(opsByKey, p, keys[..i]).value)
    ensures DependencyField(Get(MergeFields(opsByKey, p, keys[..i]).value, keys[i]))
    ensures keys[i] in opsByKey ==>
              MergeFields(opsByKey, p, keys[..i + 1]) ==
              Ok(MergeField(opsByKey[keys[i]], MergeFields(opsByKey, p, keys[..i]).value, keys[i]))
    ensures keys[i] !in opsByKey ==> MergeFields(opsByKey, p, keys) == Err(MissingOperations(keys[i]))
  {
    assert keys[..i + 1][..i] == keys[..i];
    if keys[i] !in opsByKey {
      MergeFieldsErrStays(opsByKey, p, keys, i + 1);
    }
  }

  /**
   * Each designated key ends up holding exactly the outcome of its own
   * operations on ours' field; a key listed twice gets its operations
   * replayed onto that outcome, which leaves it as it is.
   */
  lemma {:induction false} MergeFieldsEffect(opsByKey: map<string, Operations>, p: Props, keys: seq<string>, k: string)
    requires DistinctKeys(p)
    requires forall j :: j in keys ==> DependencyField(Get(p, j))
    requires MergeFields(opsByKey, p, keys).Ok?
    requires k in keys
    ensures Get(MergeFields(opsByKey, p, keys).value, k) == FieldOutcome(opsByKey[k], Get(p, k))
    ensures k in Keys(MergeFields(opsByKey, p, keys).value) <==> FieldOutcome(opsByKey[k], Get(p, k)) != Undefined
    decreases |keys|
  {
    var i := |keys| - 1;
    var front := keys[..i];
    assert keys[..i + 1] == keys;
    MergeFieldsStep(opsByKey, p, keys, i);
    var q := MergeFields(opsByKey, p, front).value;
    var r := MergeFields(opsByKey, p, keys).value;
    var ops := opsByKey[keys[i]];
    assert r == MergeField(ops, q, keys[i]);
    LastSplit(keys, k);
    if k in front {
      MergeFieldsEffect(opsByKey, p, front, k);
      if k == keys[i] {
        FieldOutcomeIdempotent(ops, Get(p, k));
      }
    } else {
      assert Get(q, k) == Get(p, k);
    }
  }

  /**
   * The assignments the loop body makes to a field, one after another, come
   * to `MergeField`: `{}` for a falsy field, the replayed map, then either
   * deletion or the sorted map.
   */
  lemma MergeFieldByAssignments(ops: Operations, p: Props, key: string)
    requires DistinctKeys(p) && DependencyField(Get(p, key))
    ensures var v := Get(p, key);
            var mid := if Truthy(v) then p else Put(p, key, Obj([]));
            var applied := Applied(ops, DepsOf(v));
            var stored := Put(mid, key, Obj(applied));
            MergeField(ops, p, key) ==
            if applied == [] then Remove(stored, key) else Put(stored, key, FieldOutcome(ops, v))
  {
    var v := Get(p, key);
    var applied := Applied(ops, DepsOf(v));
    if Truthy(v) {
      RemovePut(p, key, Obj(applied));
      PutPut(p, key, Obj(applied), FieldOutcome(ops, v));
    } else {
      var mid := Put(p, key, Obj([]));
      PutPut(p, key, Obj([]), Obj(applied));
      RemovePut(p, key, Obj(applied));
      PutPut(p, key, Obj(applied), FieldOutcome(ops, v));
    }
  }

  /**
   * The body of the loop in `mergeDependencyChanges` for one designated key,
   * on the clone `res`: `{}` for a missing or falsy field, the operations
   * replayed in place, then the field deleted when empty or re-sorted.
   */
  method MergeOneField(ops: Operations, res: JsObject, key: string)
    requires res.Valid() && DependencyField(Get(res.props, key))
    modifies res
    ensures res.Valid()
    ensures res.props == MergeField(ops, old(res.props), key)
  {
    MergeFieldByAssignments(ops, res.props, key);
    if !Truthy(res.Property(key)) {
      res.Assign(key, Obj([]));
    }
    var deps := new JsObject(res.Property(key).props);
    ApplyDependencyOperations(ops, deps);
    // `deps` is the object stored under `key`, so its updates show there too.
    res.Assign(key, Obj(deps.props));
    if deps.KeyCount() == 0 {
      res.Delete(key);
    } else {
      res.Assign(key, Obj(SortObjectKeys(deps.props)));
    }
  }

  /**
   * `mergeDependencyChanges(source, ours, theirs, keys)` once the three-way
   * classifier has produced `opsByKey`. Works on a fresh copy; `ours` is
   * left as it was.
   */
  method MergeDependencyChanges(opsByKey: map<string, Operations>, ours: JsObject, keys: seq<string>)
      returns (result: Result<JsObject, MergeError>)
    requires ours.Valid()
    requires forall k :: k in keys ==> DependencyField(Get(ours.props, k))
    ensures result.Ok? ==> fresh(result.value) && result.value.Valid()
    ensures MergeFields(opsByKey, ours.props, keys) ==
            if result.Ok? then Ok(result.value.props) else Err(result.error)
  {
    var res := new JsObject(ours.props);
    for i := 0 to |keys|
      invariant fresh(res) && res.Valid()
      invariant MergeFields(opsByKey, ours.props, keys[..i]) == Ok(res.props)
    {
      var key := keys[i];
      MergeFieldsStep(opsByKey, ours.props, keys, i);
      // The source looks the operations up after putting `{}` in place; the
      // throw discards the clone either way.
      if key !in opsByKey {
        return Err(MissingOperations(key));
      }
      MergeOneField(opsByKey[key], res, key);
    }
    assert keys[..|keys|] == keys;
    return Ok(res);
  }

  /** The keys of `keys` not in `present`, each once, in the order they first appear. */
  function AddedKeys(present: seq<string>, keys: seq<string>): (added: seq<string>)
    ensures forall k :: k in added <==> k in keys && k !in present
    ensures NoDup(present) ==> NoDup(present + added)
    decreases |keys|
  {
    if keys == [] then []
    else
      var front := keys[..|keys| - 1];
      var key := keys[|keys| - 1];
      var a := AddedKeys(present, front);
      assert forall k :: k in keys <==> k in front || k == key by {
        forall k ensures k in keys <==> k in front || k == key {
          LastSplit(keys, k);
        }
      }
      if key in present || key in a then a
      else
        assert present + (a + [key]) == (present + a) + [key];
        a + [key]
  }

  /** Assigning to an object whose keys are `front + back` either keeps them or appends the new key to `back`. */
  lemma PutAfter(q: Props, front: seq<string>, back: seq<string>, key: string, v: Value)
    requires Keys(q) == front + back
    ensures Keys(Put(q, key, v)) == if key in front || key in back then front + back else front + (back + [key])
  {
    assert (front + back) + [key] == front + (back + [key]);
  }

  /** What one more turn of the reassembly loop does, given what the earlier turns did. */
  lemma OverwriteStep(other: Props, deps: Props, keys: seq<string>, q: Props)
    requires keys != []
    requires DistinctKeys(other) ==> DistinctKeys(q)
    requires forall k :: Get(q, k) == if k in keys[..|keys| - 1] then Get(deps, k) else Get(other, k)
    requires Keys(q) == Keys(other) + AddedKeys(Keys(other), keys[..|keys| - 1])
    ensures var r := Put(q, keys[|keys| - 1], Get(deps, keys[|keys| - 1]));
            (DistinctKeys(other) ==> DistinctKeys(r)) &&
            (forall k :: Get(r, k) == if k in keys then Get(deps, k) else Get(other, k)) &&
            Keys(r) == Keys(other) + AddedKeys(Keys(other), keys)
  {
    var front := keys[..|keys| - 1];
    var key := keys[|keys| - 1];
    var r := Put(q, key, Get(deps, key));
    assert Keys(r) == Keys(other) + AddedKeys(Keys(other), keys) by {
      PutAfter(q, Keys(other), AddedKeys(Keys(other), front), key, Get(deps, key));
    }
    forall k ensures Get(r, k) == if k in keys then Get(deps, k) else Get(other, k) {
      LastSplit(keys, k);
    }
  }

  /**
   * The loop `finalMergedPackageJson[key] = mergedDependenciesPackageJson[key]`
   * over the designated keys: the generic result's keys keep their order,
   * and designated keys it lacks follow them in list order.
   */
  function Overwrite(other: Props, deps: Props, keys: seq<string>): (r: Props)
    ensures DistinctKeys(other) ==> DistinctKeys(r)
    ensures forall k :: Get(r, k) == if k in keys then Get(deps, k) else Get(other, k)
    ensures Keys(r) == Keys(other) + AddedKeys(Keys(other), keys)
    ensures forall k :: k in Keys(r) <==> k in Keys(other) || k in keys
    decreases |keys|
  {
    if keys == [] then other
    else
      var q := Overwrite(other, deps, keys[..|keys| - 1]);
      OverwriteStep(other, deps, keys, q);
      Put(q, keys[|keys| - 1], Get(deps, keys[|keys| - 1]))
  }

  /** The reassembly: a copy of the generic merge result with each designated field overwritten. */
  method Reassemble(mergedOther: JsObject, mergedDeps: JsObject, keys: seq<string>) returns (final: JsObject)
    requires mergedOther.Valid()
    ensures fresh(final) && final.Valid()
    ensures final.props == Overwrite(mergedOther.props, mergedDeps.props, keys)
  {
    final := new JsObject(mergedOther.props);
    for i := 0 to |keys|
      invariant fresh(final) && final.Valid()
      invariant final.props == Overwrite(mergedOther.props, mergedDeps.props, keys[..i])
    {
      assert keys[..i + 1][..i] == keys[..i];
      final.Assign(keys[i], mergedDeps.Property(keys[i]));
    }
    assert keys[..|keys|] == keys;
  }

  /**
   * The object `mergePackageJson` serializes, given the operations the
   * classifier computed and the generic merge result `other`.
   */
  function MergedManifest(current: Props, other: Props, opsByKey: map<string, Operations>, keysArg: Option<seq<string>>)
    : Result<Props, MergeError>
    requires DistinctKeys(current)
    requires forall k :: k in DependencyKeys(keysArg) ==> DependencyField(Get(current, k))
  {
    var keys := DependencyKeys(keysArg);
    match MergeFields(opsByKey, current, keys)
    case Err(e) => Err(e)
    case Ok(deps) => Ok(Overwrite(other, deps, keys))
  }

  /**
   * `mergePackageJson` from the parsed documents on: the dependency merge
   * reads `current` before the generic merge (whose outcome is
   * `mergedOther`) patches it.
   */
  method MergePackageJson(current: JsObject, mergedOther: JsObject, opsByKey: map<string, Operations>,
                          keysArg: Option<seq<string>>)
      returns (result: Result<JsObject, MergeError>)
    requires current.Valid() && mergedOther.Valid()
    requires forall k :: k in DependencyKeys(keysArg) ==> DependencyField(Get(current.props, k))
    ensures result.Ok? ==> fresh(result.value) && result.value.Valid()
    ensures MergedManifest(current.props, mergedOther.props, opsByKey, keysArg) ==
            if result.Ok? then Ok(result.value.props) else Err(result.error)
  {
    var keys := DependencyKeys(keysArg);
    var merged := MergeDependencyChanges(opsByKey, current, keys);
    match merged
    case Err(e) =>
      return Err(e);
    case Ok(deps) =>
      var final := Reassemble(mergedOther, deps, keys);
      return Ok(final);
  }

  /**
   * Leaving the key list out merges the five standard fields; an empty list
   * merges none, and the generic merge result comes through unchanged.
   */
  lemma DependencyKeysDefault(current: Props, other: Props, opsByKey: map<string, Operations>)
    requires DistinctKeys(current)
    requires forall k :: k in DefaultDependencyKeys ==> DependencyField(Get(current, k))
    ensures MergedManifest(current, other, opsByKey, None) ==
            MergedManifest(current, other, opsByKey, Some(DefaultDependencyKeys))
    ensures MergedManifest(current, other, opsByKey, Some([])) == Ok(other)
    ensures NoDup(DefaultDependencyKeys) && |DefaultDependencyKeys| == 5
  {
    assert DependencyKeys(None) == DependencyKeys(Some(DefaultDependencyKeys));
    assert MergeFields(opsByKey, current, []) == Ok(current);
    assert NoDup(DefaultDependencyKeys) by {
      var ks := DefaultDependencyKeys;
      forall i, j | 0 <= i < j < |ks| ensures ks[i] != ks[j] {
        assert |ks[i]| != |ks[j]|;
      }
    }
  }

  /**
   * What the serialized merge holds: every designated field is the outcome of
   * its own operations on ours' field (and is left out when that outcome is
   * empty); every other field is the generic merge's. The fields come out in
   * the generic result's order, followed by the designated ones it lacked.
   */
  lemma MergedManifestFields(current: Props, other: Props, opsByKey: map<string, Operations>,
                             keysArg: Option<seq<string>>, k: string)
    requires DistinctKeys(current) && DistinctKeys(other)
    requires forall j :: j in DependencyKeys(keysArg) ==> DependencyField(Get(current, j))
    ensures MergedManifest(current, other, opsByKey, keysArg).Ok? <==>
              forall j :: j in DependencyKeys(keysArg) ==> j in opsByKey
    ensures MergedManifest(current, other, opsByKey, keysArg).Ok? ==>
              var shown := OmitUndefined(MergedManifest(current, other, opsByKey, keysArg).value);
              if k in DependencyKeys(keysArg) then
                Get(shown, k) == FieldOutcome(opsByKey[k], Get(current, k)) &&
                (k in Keys(shown) <==> Applied(opsByKey[k], DepsOf(Get(current, k))) != [])
              else
                Get(shown, k) == Get(other, k)
    ensures MergedManifest(current, other, opsByKey, keysArg).Ok? ==>
              var shown := OmitUndefined(MergedManifest(current, other, opsByKey, keysArg).value);
              Subsequence(Keys(shown), Keys(other) + AddedKeys(Keys(other), DependencyKeys(keysArg)))
  {
    var keys := DependencyKeys(keysArg);
    var r := MergeFields(opsByKey, current, keys);
    if r.Ok? && k in keys {
      MergeFieldsEffect(opsByKey, current, keys, k);
    }
  }
}
