/** Facts about sequences and their slices that both pipeline modules use. */
module Sequences {

  /** All elements of `xss`, in order. */
  function Flatten<T>(xss: seq<seq<T>>): seq<T>
  {
    if xss == [] then [] else Flatten(xss[..|xss| - 1]) + xss[|xss| - 1]
  }

  lemma {:induction false} FlattenCons<T>(xs: seq<T>, xss: seq<seq<T>>)
    ensures Flatten([xs] + xss) == xs + Flatten(xss)
    decreases |xss|
  {
    if xss != [] {
      var last := xss[|xss| - 1];
      assert ([xs] + xss)[..|xss|] == [xs] + xss[..|xss| - 1];
      FlattenCons(xs, xss[..|xss| - 1]);
    }
  }

  lemma SliceSplit<T>(s: seq<T>, b: nat, e: nat)
    requires b <= e <= |s|
    ensures s == s[..b] + s[b..e] + s[e..]
  {
  }

  /** A sequence is its prefix followed by whatever its suffix is. */
  lemma SliceThenSuffix<T>(s: seq<T>, k: nat, x: seq<T>, y: seq<T>)
    requires k <= |s| && s[k..] == x + y
    ensures s[0..] == s[..k] + x + y
  {
    assert s == s[..k] + s[k..];
  }

  lemma AppendAssoc<T>(a: seq<T>, b: seq<T>, c: seq<T>)
    ensures a + (b + c) == (a + b) + c
  {
  }

  /** Appending a non-empty `ys` is appending all of it but its last element, then that element. */
  lemma AppendButLast<T>(xs: seq<T>, ys: seq<T>)
    requires ys != []
    ensures xs + ys == (xs + ys[..|ys| - 1]) + [ys[|ys| - 1]]
    ensures (xs + ys)[..|xs + ys| - 1] == xs + ys[..|ys| - 1]
  {
    assert ys == ys[..|ys| - 1] + [ys[|ys| - 1]];
  }

  /** Two appended pieces of which one is empty can be appended in either order. */
  lemma SwapWhenOneEmpty<T>(front: seq<T>, x: seq<T>, y: seq<T>)
    requires x == [] || y == []
    ensures (front + x) + y == (front + y) + x
  {
    if x == [] {
      assert front + x == front;
    } else {
      assert front + y == front;
    }
  }

  /** Prefixing the first piece of `front + back` changes only the `front` part. */
  lemma HeadMerge<T>(h: seq<T>, whole: seq<seq<T>>, front: seq<seq<T>>, back: seq<seq<T>>)
    requires whole == front + back && front != []
    ensures [h + whole[0]] + whole[1..] == ([h + front[0]] + front[1..]) + back
  {
    assert whole[0] == front[0];
    assert whole[1..] == front[1..] + back;
  }

  /** The last element of a non-empty middle part, found in the whole. */
  lemma LastOfMiddle<T>(front: seq<T>, middle: seq<T>, back: seq<T>)
    requires middle != []
    ensures ((front + middle) + back)[|front| + |middle| - 1] == middle[|middle| - 1]
  {
  }

  /** Flattening one more part appends it. */
  lemma FlattenSnoc<T>(xss: seq<seq<T>>, xs: seq<T>)
    ensures Flatten(xss + [xs]) == Flatten(xss) + xs
  {
    assert (xss + [xs])[..|xss|] == xss;
  }
}
