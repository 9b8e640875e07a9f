/**
  The record clean-up helpers of the post-processor: top-level field removal,
  removal of nested fields by key path, and removal of empty top-level fields.
  Each returns a new value; the argument is a value and is never changed.
 */
module PostProcessor {
  import opened JsonValues
  import opened Lists

  // ---------------------------------------------------------------------------
  // removeFields

  /** The entries of `fs` whose key is not listed in `fields`, in their order. */
  function Without(fs: seq<Field>, fields: seq<string>): seq<Field>
  {
    if fs == [] then []
    else if fs[0].0 in fields then Without(fs[1..], fields)
    else [fs[0]] + Without(fs[1..], fields)
  }

  /** The kept entries stay in their order. */
  lemma {:induction false} WithoutInOrder(fs: seq<Field>, fields: seq<string>)
    ensures Sublist(Without(fs, fields), fs)
  {
    if fs != [] {
      WithoutInOrder(fs[1..], fields);
    }
  }

  lemma {:induction false} WithoutKeys(fs: seq<Field>, fields: seq<string>, k: string)
    ensures HasKey(Without(fs, fields), k) <==> HasKey(fs, k) && k !in fields
    ensures k !in fields ==> Lookup(Without(fs, fields), k) == Lookup(fs, k)
  {
    if fs != [] {
      WithoutKeys(fs[1..], fields, k);
      HasKeyCons(fs, k);
      if fs[0].0 !in fields {
        HasKeyCons(Without(fs, fields), k);
      }
    }
  }

  /** Keeps exactly the keys that are not in `fields`, with their values, in order. */
  method RemoveFields(dataObject: seq<Field>, fields: seq<string>) returns (result: seq<Field>)
    requires DistinctKeys(dataObject)
    ensures result == Without(dataObject, fields)
    ensures forall k :: HasKey(result, k) <==> HasKey(dataObject, k) && k !in fields
    ensures forall k :: k !in fields ==> Lookup(result, k) == Lookup(dataObject, k)
  {
    result := [];
    var i := 0;
    while i < |dataObject|
      invariant 0 <= i <= |dataObject|
      invariant result == Without(dataObject[..i], fields)
    {
      var (key, value) := dataObject[i];
      if key !in fields {
        WithoutKeys(dataObject[..i], fields, key);
        KeyNotInPrefix(dataObject, i);
        result := Put(result, key, value);
      }
      WithoutSnoc(dataObject[..i], dataObject[i], fields);
      assert dataObject[..i + 1] == dataObject[..i] + [dataObject[i]];
      i := i + 1;
    }
    assert dataObject[..i] == dataObject;
    forall k ensures HasKey(result, k) <==> HasKey(dataObject, k) && k !in fields {
      WithoutKeys(dataObject, fields, k);
    }
    forall k | k !in fields ensures Lookup(result, k) == Lookup(dataObject, k) {
      WithoutKeys(dataObject, fields, k);
    }
  }

  /** In an object with distinct keys, the i-th key does not occur before position i. */
  lemma KeyNotInPrefix(fs: seq<Field>, i: nat)
    requires DistinctKeys(fs) && i < |fs|
    ensures !HasKey(fs[..i], fs[i].0)
  {
    forall j | 0 <= j < i ensures fs[..i][j].0 != fs[i].0 {
      assert fs[..i][j] == fs[j];
    }
  }

  lemma {:induction false} WithoutSnoc(fs: seq<Field>, f: Field, fields: seq<string>)
    ensures Without(fs + [f], fields)
         == Without(fs, fields) + (if f.0 in fields then [] else [f])
  {
    if fs == [] {
      assert fs + [f] == [f];
    } else {
      assert (fs + [f])[1..] == fs[1..] + [f];
      WithoutSnoc(fs[1..], f, fields);
    }
  }

  // ---------------------------------------------------------------------------
  // removeNestedFieldsIfPresent

  /**
    The inner `removeFieldPath`: a non-object or an empty path is returned
    as is; the last key of the path is deleted from a copy of its parent, and
    every object on the way down is copied with its child replaced.
   */
  function RemoveFieldPath(obj: Json, path: seq<string>): Json
    decreases |path|
  {
    if !obj.Obj? || |path| == 0 then obj
    else if |path| == 1 then
      if HasKey(obj.fields, path[0]) then Obj(Delete(obj.fields, path[0])) else obj
    else if HasKey(obj.fields, path[0]) then
      Obj(Put(obj.fields, path[0], RemoveFieldPath(Lookup(obj.fields, path[0]).value, path[1..])))
    else obj
  }

  /** The value found by following `path` from `j`; `None` when a step is missing. */
  function Get(j: Json, path: seq<string>): Option<Json>
    decreases |path|
  {
    if path == [] then Some(j)
    else if !j.Obj? then None
    else match Lookup(j.fields, path[0])
      case None => None
      case Some(child) => Get(child, path[1..])
  }

  predicate IsPrefix(p: seq<string>, q: seq<string>)
  {
    |p| <= |q| && q[..|p|] == p
  }

  /** A path that does not lead to a value leaves the object as it is. */
  lemma {:induction false} AbsentPathUnchanged(obj: Json, path: seq<string>)
    requires path == [] || Get(obj, path) == None
    ensures RemoveFieldPath(obj, path) == obj
    decreases |path|
  {
    if obj.Obj? && |path| > 1 && HasKey(obj.fields, path[0]) {
      var child := Lookup(obj.fields, path[0]).value;
      AbsentPathUnchanged(child, path[1..]);
      PutSameValue(obj.fields, path[0]);
    }
  }

  /** After the removal, the addressed field is gone. */
  lemma {:induction false} RemovedPathIsAbsent(obj: Json, path: seq<string>)
    requires path != []
    ensures Get(RemoveFieldPath(obj, path), path) == None
    decreases |path|
  {
    if obj.Obj? && |path| > 1 && HasKey(obj.fields, path[0]) {
      RemovedPathIsAbsent(Lookup(obj.fields, path[0]).value, path[1..]);
    }
  }

  /**
    Every path that neither leads to nor passes through the removed field
    reads the same value before and after the removal.
   */
  lemma {:induction false} OtherPathsUnchanged(obj: Json, path: seq<string>, q: seq<string>)
    requires !IsPrefix(q, path) && !IsPrefix(path, q)
    ensures Get(RemoveFieldPath(obj, path), q) == Get(obj, q)
    decreases |path|
  {
    assert path != [] && q != [];
    if obj.Obj? && HasKey(obj.fields, path[0]) && q[0] == path[0] {
      assert |path| > 1;
      assert q == [q[0]] + q[1..] && path == [path[0]] + path[1..];
      OtherPathsUnchanged(Lookup(obj.fields, path[0]).value, path[1..], q[1..]);
    }
  }

  /** Removing a field never makes a missing path appear. */
  lemma {:induction false} RemovalKeepsAbsent(obj: Json, path: seq<string>, q: seq<string>)
    requires Get(obj, q) == None
    ensures Get(RemoveFieldPath(obj, path), q) == None
    decreases |path|
  {
    if obj.Obj? && |path| > 1 && HasKey(obj.fields, path[0]) && q != [] && q[0] == path[0] {
      RemovalKeepsAbsent(Lookup(obj.fields, path[0]).value, path[1..], q[1..]);
    }
  }

  /** The paths applied left to right, each to the result of the previous one. */
  function RemovePaths(obj: Json, paths: seq<seq<string>>): Json
  {
    if paths == [] then obj
    else RemoveFieldPath(RemovePaths(obj, paths[..|paths| - 1]), paths[|paths| - 1])
  }

  /** The loop over the path list, threading the object through `removeFieldPath`. */
  method RemoveNestedFieldsIfPresent(dataObject: Json, fieldsToRemove: seq<seq<string>>)
    returns (processedObject: Json)
    ensures processedObject == RemovePaths(dataObject, fieldsToRemove)
    ensures fieldsToRemove == [] ==> processedObject == dataObject
    ensures forall p :: p in fieldsToRemove && p != [] ==> Get(processedObject, p) == None
  {
    if |fieldsToRemove| == 0 {
      return dataObject;
    }
    processedObject := dataObject;
    var i := 0;
    while i < |fieldsToRemove|
      invariant 0 <= i <= |fieldsToRemove|
      invariant processedObject == RemovePaths(dataObject, fieldsToRemove[..i])
    {
      assert fieldsToRemove[..i + 1][..i] == fieldsToRemove[..i];
      processedObject := RemoveFieldPath(processedObject, fieldsToRemove[i]);
      i := i + 1;
    }
    assert fieldsToRemove[..i] == fieldsToRemove;
    forall p | p in fieldsToRemove && p != [] ensures Get(processedObject, p) == None {
      EveryListedPathAbsent(dataObject, fieldsToRemove, p);
    }
  }

  /** Every non-empty path of the list is absent from the final result. */
  lemma {:induction false} EveryListedPathAbsent(obj: Json, paths: seq<seq<string>>, p: seq<string>)
    requires p in paths && p != []
    ensures Get(RemovePaths(obj, paths), p) == None
  {
    var last := paths[|paths| - 1];
    var init := paths[..|paths| - 1];
    assert paths == init + [last];
    if p == last {
      RemovedPathIsAbsent(RemovePaths(obj, init), p);
    } else {
      EveryListedPathAbsent(obj, init, p);
      RemovalKeepsAbsent(RemovePaths(obj, init), last, p);
    }
  }

  /** A path unrelated to every listed path reads the same value afterwards. */
  lemma {:induction false} UnrelatedPathsUnchanged(obj: Json, paths: seq<seq<string>>, q: seq<string>)
    requires forall p :: p in paths ==> !IsPrefix(q, p) && !IsPrefix(p, q)
    ensures Get(RemovePaths(obj, paths), q) == Get(obj, q)
  {
    if paths != [] {
      var init := paths[..|paths| - 1];
      assert forall p :: p in init ==> p in paths;
      UnrelatedPathsUnchanged(obj, init, q);
      OtherPathsUnchanged(RemovePaths(obj, init), paths[|paths| - 1], q);
    }
  }

  // ---------------------------------------------------------------------------
  // removeEmptyFields

  /** Some direct value of the object is not null. */
  predicate HasNonNullValue(fs: seq<Field>)
  {
    exists i :: 0 <= i < |fs| && !fs[i].1.Null?
  }

  /** null, an empty array, or an object none of whose direct values is non-null. */
  predicate IsEmptyValue(v: Json)
  {
    || v.Null?
    || (v.Arr? && |v.items| == 0)
    || (v.Obj? && !HasNonNullValue(v.fields))
  }

  /** The entries of `fs` whose value is not empty, in their order. */
  function NonEmpty(fs: seq<Field>): seq<Field>
  {
    if fs == [] then []
    else if IsEmptyValue(fs[0].1) then NonEmpty(fs[1..])
    else [fs[0]] + NonEmpty(fs[1..])
  }

  /** The kept entries stay in their order. */
  lemma {:induction false} NonEmptyInOrder(fs: seq<Field>)
    ensures Sublist(NonEmpty(fs), fs)
  {
    if fs != [] {
      NonEmptyInOrder(fs[1..]);
    }
  }

  lemma {:induction false} NonEmptySnoc(fs: seq<Field>, f: Field)
    ensures NonEmpty(fs + [f]) == NonEmpty(fs) + (if IsEmptyValue(f.1) then [] else [f])
  {
    if fs == [] {
      assert fs + [f] == [f];
    } else {
      assert (fs + [f])[1..] == fs[1..] + [f];
      NonEmptySnoc(fs[1..], f);
    }
  }

  /** A key survives exactly when its value is not empty, and keeps its value. */
  lemma {:induction false} NonEmptyKeys(fs: seq<Field>, k: string)
    requires DistinctKeys(fs)
    ensures HasKey(NonEmpty(fs), k) <==> HasKey(fs, k) && !IsEmptyValue(Lookup(fs, k).value)
    ensures HasKey(NonEmpty(fs), k) ==> Lookup(NonEmpty(fs), k) == Lookup(fs, k)
  {
    if fs != [] {
      assert DistinctKeys(fs[1..]);
      NonEmptyKeys(fs[1..], k);
      HasKeyCons(fs, k);
      if !IsEmptyValue(fs[0].1) {
        HasKeyCons(NonEmpty(fs), k);
      }
      if fs[0].0 == k {
        forall j | 0 <= j < |fs| - 1 ensures fs[1..][j].0 != k {
          assert fs[1..][j] == fs[j + 1];
        }
      }
    }
  }

  /** No null value and no empty array is left, and no object without a non-null value. */
  lemma {:induction false} NonEmptyHasNoEmptyValue(fs: seq<Field>)
    ensures forall i :: 0 <= i < |NonEmpty(fs)| ==> !IsEmptyValue(NonEmpty(fs)[i].1)
  {
    if fs != [] {
      NonEmptyHasNoEmptyValue(fs[1..]);
    }
  }

  /** Dropping empty fields twice is the same as dropping them once. */
  lemma {:induction false} NonEmptyIdempotent(fs: seq<Field>)
    ensures NonEmpty(NonEmpty(fs)) == NonEmpty(fs)
  {
    if fs != [] {
      NonEmptyIdempotent(fs[1..]);
      if !IsEmptyValue(fs[0].1) {
        assert ([fs[0]] + NonEmpty(fs[1..]))[1..] == NonEmpty(fs[1..]);
      }
    }
  }

  lemma {:induction false} NonEmptyKeysSubset(fs: seq<Field>, k: string)
    ensures HasKey(NonEmpty(fs), k) ==> HasKey(fs, k)
  {
    if fs != [] {
      NonEmptyKeysSubset(fs[1..], k);
      HasKeyCons(fs, k);
      if !IsEmptyValue(fs[0].1) {
        HasKeyCons(NonEmpty(fs), k);
      }
    }
  }

  /** The loop that copies the non-empty top-level fields into a fresh object. */
  method RemoveEmptyFields(dataObject: seq<Field>) returns (result: seq<Field>)
    requires DistinctKeys(dataObject)
    ensures result == NonEmpty(dataObject)
    ensures forall i :: 0 <= i < |result| ==> !IsEmptyValue(result[i].1)
    ensures forall k :: HasKey(result, k) <==> HasKey(dataObject, k) && !IsEmptyValue(Lookup(dataObject, k).value)
    ensures forall k :: HasKey(result, k) ==> Lookup(result, k) == Lookup(dataObject, k)
  {
    result := [];
    var i := 0;
    while i < |dataObject|
      invariant 0 <= i <= |dataObject|
      invariant result == NonEmpty(dataObject[..i])
    {
      var (key, value) := dataObject[i];
      if value.Null? {
      } else if value.Arr? && |value.items| == 0 {
      } else if value.Obj? && !HasNonNullValue(value.fields) {
      } else {
        NonEmptyKeysSubset(dataObject[..i], key);
        KeyNotInPrefix(dataObject, i);
        result := Put(result, key, value);
      }
      NonEmptySnoc(dataObject[..i], dataObject[i]);
      assert dataObject[..i + 1] == dataObject[..i] + [dataObject[i]];
      i := i + 1;
    }
    assert dataObject[..i] == dataObject;
    NonEmptyHasNoEmptyValue(dataObject);
    forall k ensures HasKey(result, k) <==> HasKey(dataObject, k) && !IsEmptyValue(Lookup(dataObject, k).value)
    {
      NonEmptyKeys(dataObject, k);
    }
    forall k | HasKey(result, k) ensures Lookup(result, k) == Lookup(dataObject, k) {
      NonEmptyKeys(dataObject, k);
    }
  }
}
