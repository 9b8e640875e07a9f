/**
  Decoded JSON values as the post-processor and the feature search see them.

  A JavaScript object is modelled as the list of its own (key, value) pairs in
  enumeration order. Property assignment (`o[k] = v`), `delete o[k]` and the
  `in` operator are given their JavaScript meaning over that list.
 */
module JsonValues {

  datatype Option<T> = None | Some(value: T)

  datatype Result<T, E> = Ok(value: T) | Err(error: E)

  datatype Json =
    | Null
    | Bool(b: bool)
    | Num(n: int)
    | Str(s: string)
    | Arr(items: seq<Json>)
    | Obj(fields: seq<Field>)

  type Field = (string, Json)

  /** The own keys of an object, in enumeration order. */
  function Keys(fs: seq<Field>): (ks: seq<string>)
    ensures |ks| == |fs|
    ensures forall i :: 0 <= i < |fs| ==> ks[i] == fs[i].0
  {
    if fs == [] then [] else [fs[0].0] + Keys(fs[1..])
  }

  /** `k in o` for an object `o`. */
  predicate HasKey(fs: seq<Field>, k: string)
  {
    exists i :: 0 <= i < |fs| && fs[i].0 == k
  }

  lemma HasKeyCons(fs: seq<Field>, k: string)
    requires fs != []
    ensures HasKey(fs, k) <==> fs[0].0 == k || HasKey(fs[1..], k)
  {
    if HasKey(fs[1..], k) {
      var i :| 0 <= i < |fs| - 1 && fs[1..][i].0 == k;
      assert fs[i + 1].0 == k;
    }
    if HasKey(fs, k) && fs[0].0 != k {
      var i :| 0 <= i < |fs| && fs[i].0 == k;
      assert fs[1..][i - 1].0 == k;
    }
  }

  /** A JavaScript object never holds the same own key twice. */
  predicate DistinctKeys(fs: seq<Field>)
  {
    forall i, j :: 0 <= i < j < |fs| ==> fs[i].0 != fs[j].0
  }

  /** `o[k]`: the value stored under `k`, `None` for undefined. */
  function Lookup(fs: seq<Field>, k: string): (r: Option<Json>)
    ensures r.Some? <==> HasKey(fs, k)
  {
    if fs == [] then None
    else if fs[0].0 == k then Some(fs[0].1)
    else Lookup(fs[1..], k)
  }

  /**
    `o[k] = v`: an existing key keeps its position and takes the new value,
    a new key is added at the end.
   */
  function Put(fs: seq<Field>, k: string, v: Json): (r: seq<Field>)
    ensures Lookup(r, k) == Some(v)
    ensures forall k' :: k' != k ==> Lookup(r, k') == Lookup(fs, k')
    ensures HasKey(fs, k) ==> Keys(r) == Keys(fs)
    ensures !HasKey(fs, k) ==> r == fs + [(k, v)]
  {
    if fs == [] then [(k, v)]
    else if fs[0].0 == k then [(k, v)] + fs[1..]
    else [fs[0]] + Put(fs[1..], k, v)
  }

  /** `delete o[k]`: the key disappears, every other entry keeps its place. */
  function Delete(fs: seq<Field>, k: string): (r: seq<Field>)
    ensures !HasKey(r, k)
    ensures forall k' :: k' != k ==> Lookup(r, k') == Lookup(fs, k')
    ensures |r| <= |fs|
    ensures !HasKey(fs, k) ==> r == fs
  {
    if fs == [] then []
    else if fs[0].0 == k then Delete(fs[1..], k)
    else [fs[0]] + Delete(fs[1..], k)
  }

  lemma {:induction false} PutExistingKeyKeepsDistinct(fs: seq<Field>, k: string, v: Json)
    requires DistinctKeys(fs) && HasKey(fs, k)
    ensures DistinctKeys(Put(fs, k, v))
  {
    var r := Put(fs, k, v);
    assert Keys(r) == Keys(fs);
    forall i, j | 0 <= i < j < |r| ensures r[i].0 != r[j].0 {
      assert r[i].0 == Keys(r)[i] == Keys(fs)[i] == fs[i].0;
      assert r[j].0 == Keys(r)[j] == Keys(fs)[j] == fs[j].0;
    }
  }

  /** Storing the value already held under a key changes nothing. */
  lemma {:induction false} PutSameValue(fs: seq<Field>, k: string)
    requires HasKey(fs, k)
    ensures Put(fs, k, Lookup(fs, k).value) == fs
  {
    if fs[0].0 != k {
      HasKeyCons(fs, k);
      PutSameValue(fs[1..], k);
    }
  }
}
