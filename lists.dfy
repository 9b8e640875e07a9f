/** Order-preserving sub-lists, the shape of a `filter` and of a list of optional entries. */
module Lists {

  /** `xs` is `ys` with some elements left out and the others kept in their order. */
  predicate Sublist<T(==)>(xs: seq<T>, ys: seq<T>)
    decreases |ys|
  {
    if xs == [] then true
    else if ys == [] then false
    else (xs[0] == ys[0] && Sublist(xs[1..], ys[1..])) || Sublist(xs, ys[1..])
  }

  lemma {:induction false} SublistShorter<T>(xs: seq<T>, ys: seq<T>)
    requires Sublist(xs, ys)
    ensures |xs| <= |ys|
    ensures forall x :: x in xs ==> x in ys
    decreases |ys|
  {
    if xs != [] {
      if xs[0] == ys[0] && Sublist(xs[1..], ys[1..]) {
        SublistShorter(xs[1..], ys[1..]);
        forall x | x in xs ensures x in ys {
          if x != xs[0] {
            assert x in xs[1..];
          }
        }
      } else {
        SublistShorter(xs, ys[1..]);
      }
    }
  }

  lemma {:induction false} SublistOfSelf<T>(ys: seq<T>)
    ensures Sublist(ys, ys)
    decreases |ys|
  {
    if ys != [] {
      SublistOfSelf(ys[1..]);
    }
  }

  /** Sub-lists of consecutive pieces join into a sub-list of the joined pieces. */
  lemma {:induction false} SublistConcat<T>(xs1: seq<T>, ys1: seq<T>, xs2: seq<T>, ys2: seq<T>)
    requires Sublist(xs1, ys1) && Sublist(xs2, ys2)
    ensures Sublist(xs1 + xs2, ys1 + ys2)
    decreases |ys1|
  {
    if ys1 == [] {
      assert xs1 == [];
      assert xs1 + xs2 == xs2 && ys1 + ys2 == ys2;
    } else if xs1 != [] && xs1[0] == ys1[0] && Sublist(xs1[1..], ys1[1..]) {
      SublistConcat(xs1[1..], ys1[1..], xs2, ys2);
      assert (xs1 + xs2)[1..] == xs1[1..] + xs2;
      assert (ys1 + ys2)[1..] == ys1[1..] + ys2;
    } else {
      SublistConcat(xs1, ys1[1..], xs2, ys2);
      assert (ys1 + ys2)[1..] == ys1[1..] + ys2;
    }
  }

  /** A sub-list of a prefix, followed by at most the next element, is a sub-list of the longer prefix. */
  lemma SublistExtend<T>(xs: seq<T>, piece: seq<T>, order: seq<T>, j: nat)
    requires 0 < j <= |order|
    requires Sublist(xs, order[..j - 1]) && Sublist(piece, [order[j - 1]])
    ensures Sublist(xs + piece, order[..j])
  {
    SublistConcat(xs, order[..j - 1], piece, [order[j - 1]]);
    assert order[..j] == order[..j - 1] + [order[j - 1]];
  }
}
