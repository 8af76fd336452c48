/**
  Small, generic building blocks shared by every stage of the pipeline:
  an optional value, order-preserving filters over sequences, and
  duplicate removal.
 */
module Common {

  /** A value that may be absent (Python's `None`). */
  datatype Option<+T> = None | Some(value: T)

  /** `xs` appears, in order, inside `ys` (not necessarily contiguously). */
  predicate IsSubsequence<T(==)>(xs: seq<T>, ys: seq<T>)
    decreases |ys|
  {
    if xs == [] then true
    else if ys == [] then false
    else if xs[0] == ys[0] then IsSubsequence(xs[1..], ys[1..])
    else IsSubsequence(xs, ys[1..])
  }

  lemma {:induction false} SubsequenceFacts<T>(xs: seq<T>, ys: seq<T>)
    requires IsSubsequence(xs, ys)
    ensures |xs| <= |ys|
    ensures forall x :: x in xs ==> x in ys
    decreases |ys|
  {
    if xs == [] {
    } else if xs[0] == ys[0] {
      SubsequenceFacts(xs[1..], ys[1..]);
      assert forall x :: x in xs ==> x == xs[0] || x in xs[1..];
    } else {
      SubsequenceFacts(xs, ys[1..]);
    }
  }

  lemma {:induction false} SubsequenceCons<T>(x: T, xs: seq<T>, ys: seq<T>)
    requires IsSubsequence(xs, ys)
    ensures IsSubsequence([x] + xs, [x] + ys)
  {
    assert ([x] + xs)[1..] == xs;
    assert ([x] + ys)[1..] == ys;
  }

  lemma {:induction false} SubsequenceSkip<T>(x: T, xs: seq<T>, ys: seq<T>)
    requires IsSubsequence(xs, ys)
    ensures IsSubsequence(xs, [x] + ys)
    decreases |ys|, 1
  {
    if xs == [] {
    } else if xs[0] == x {
      // Matching `x` first is what the greedy definition does; show that it
      // is no worse than skipping it.
      assert ([x] + ys)[1..] == ys;
      SubsequenceTail(xs, ys);
    } else {
      assert ([x] + ys)[1..] == ys;
    }
  }

  lemma {:induction false} SubsequenceTail<T>(xs: seq<T>, ys: seq<T>)
    requires xs != [] && IsSubsequence(xs, ys)
    ensures IsSubsequence(xs[1..], ys)
    decreases |ys|, 0
  {
    if xs[0] == ys[0] {
      SubsequenceSkip(ys[0], xs[1..], ys[1..]);
      assert [ys[0]] + ys[1..] == ys;
    } else {
      SubsequenceTail(xs, ys[1..]);
      SubsequenceSkip(ys[0], xs[1..], ys[1..]);
      assert [ys[0]] + ys[1..] == ys;
    }
  }

  /** Skipping a whole block in front keeps a subsequence a subsequence. */
  lemma {:induction false} SubsequencePrefix<T>(xs: seq<T>, zs: seq<T>, ys: seq<T>)
    requires IsSubsequence(xs, ys)
    ensures IsSubsequence(xs, zs + ys)
  {
    if zs == [] {
      assert zs + ys == ys;
    } else {
      SubsequencePrefix(xs, zs[1..], ys);
      SubsequenceSkip(zs[0], xs, zs[1..] + ys);
      assert [zs[0]] + (zs[1..] + ys) == zs + ys;
    }
  }

  /** No element occurs twice. */
  predicate Distinct<T(==)>(xs: seq<T>) {
    forall i, j :: 0 <= i < j < |xs| ==> xs[i] != xs[j]
  }

  /** Part of a duplicate-free sequence is duplicate-free. */
  lemma {:induction false} SubsequenceDistinct<T>(xs: seq<T>, ys: seq<T>)
    requires IsSubsequence(xs, ys) && Distinct(ys)
    ensures Distinct(xs)
    decreases |ys|
  {
    if xs == [] {
    } else if xs[0] == ys[0] {
      SubsequenceDistinct(xs[1..], ys[1..]);
      SubsequenceFacts(xs[1..], ys[1..]);
      assert ys[0] !in ys[1..];
      assert forall j :: 1 <= j < |xs| ==> xs[j] == xs[1..][j - 1];
    } else {
      SubsequenceDistinct(xs, ys[1..]);
    }
  }

  /**
    Keeps the elements satisfying `p`, in their original order
    (a Python list comprehension with an `if`).
   */
  function Filter<T(==,!new)>(p: T -> bool, xs: seq<T>): (r: seq<T>)
    ensures IsSubsequence(r, xs)
    ensures forall x :: x in r <==> x in xs && p(x)
  {
    if xs == [] then []
    else
      var rest := Filter(p, xs[1..]);
      assert forall x :: x in xs <==> x == xs[0] || x in xs[1..];
      if p(xs[0]) then
        SubsequenceCons(xs[0], rest, xs[1..]);
        assert [xs[0]] + xs[1..] == xs;
        [xs[0]] + rest
      else
        SubsequenceSkip(xs[0], rest, xs[1..]);
        assert [xs[0]] + xs[1..] == xs;
        rest
  }

  /** Filtering goes element by element: the result for `a + b` is the result for `a` followed by that for `b`. */
  lemma {:induction false} FilterAppend<T(!new)>(p: T -> bool, a: seq<T>, b: seq<T>)
    ensures Filter(p, a + b) == Filter(p, a) + Filter(p, b)
  {
    if a == [] {
      assert a + b == b;
    } else {
      assert (a + b)[0] == a[0];
      assert (a + b)[1..] == a[1..] + b;
      FilterAppend(p, a[1..], b);
    }
  }

  lemma FilterSingle<T(!new)>(p: T -> bool, x: T)
    ensures Filter(p, [x]) == if p(x) then [x] else []
  {
    assert [x][1..] == [];
  }

  /** When every element passes, nothing is removed. */
  lemma {:induction false} FilterKeepsAll<T(!new)>(p: T -> bool, xs: seq<T>)
    requires forall k :: 0 <= k < |xs| ==> p(xs[k])
    ensures Filter(p, xs) == xs
  {
    if xs != [] {
      FilterKeepsAll(p, xs[1..]);
      assert [xs[0]] + xs[1..] == xs;
    }
  }

  /** When no element passes, nothing is kept. */
  lemma {:induction false} FilterKeepsNone<T(!new)>(p: T -> bool, xs: seq<T>)
    requires forall k :: 0 <= k < |xs| ==> !p(xs[k])
    ensures Filter(p, xs) == []
  {
    if xs != [] {
      FilterKeepsNone(p, xs[1..]);
    }
  }

  /** Applies `f` to every element, keeping the order. */
  function Map<A, B>(f: A -> B, xs: seq<A>): (r: seq<B>)
    ensures |r| == |xs|
    ensures forall k :: 0 <= k < |xs| ==> r[k] == f(xs[k])
  {
    seq(|xs|, k requires 0 <= k < |xs| => f(xs[k]))
  }

  /** Mapping distributes over concatenation. */
  lemma MapAppend<A, B>(f: A -> B, xs: seq<A>, ys: seq<A>)
    ensures Map(f, xs + ys) == Map(f, xs) + Map(f, ys)
  {
    var m, a, b := Map(f, xs + ys), Map(f, xs), Map(f, ys);
    forall k | 0 <= k < |m| ensures m[k] == (a + b)[k] {
      if k < |xs| {
        assert (xs + ys)[k] == xs[k];
      } else {
        assert (xs + ys)[k] == ys[k - |xs|];
      }
    }
  }

  /**
    Applies `f` to every element and keeps the present results, in order:
    the shape of a Python loop that appends a value for some rows and
    skips the others.
   */
  function FilterMap<A, B>(f: A -> Option<B>, xs: seq<A>): (r: seq<B>)
    ensures |r| <= |xs|
    ensures forall j :: 0 <= j < |r| ==> exists i :: 0 <= i < |xs| && f(xs[i]) == Some(r[j])
  {
    if xs == [] then []
    else
      var rest := FilterMap(f, xs[1..]);
      assert forall j :: 0 <= j < |rest| ==> exists i :: 0 <= i < |xs| && f(xs[i]) == Some(rest[j]) by {
        forall j | 0 <= j < |rest|
          ensures exists i :: 0 <= i < |xs| && f(xs[i]) == Some(rest[j])
        {
          var i :| 0 <= i < |xs[1..]| && f(xs[1..][i]) == Some(rest[j]);
          assert f(xs[i + 1]) == Some(rest[j]);
        }
      }
      match f(xs[0])
      case None => rest
      case Some(y) => [y] + rest
  }

  /** A property every image has holds of every kept element. */
  lemma FilterMapKeeps<A, B>(f: A -> Option<B>, P: B -> bool, xs: seq<A>)
    requires forall x :: f(x).Some? ==> P(f(x).value)
    ensures forall j :: 0 <= j < |FilterMap(f, xs)| ==> P(FilterMap(f, xs)[j])
  {
    var r := FilterMap(f, xs);
    forall j | 0 <= j < |r| ensures P(r[j]) {
      var i :| 0 <= i < |xs| && f(xs[i]) == Some(r[j]);
    }
  }

  /** An element with an image contributes it in front of the rest. */
  lemma FilterMapHead<A, B>(f: A -> Option<B>, xs: seq<A>, y: B)
    requires xs != [] && f(xs[0]) == Some(y)
    ensures FilterMap(f, xs) == [y] + FilterMap(f, xs[1..])
  {
  }

  /** The result for one element: its image when present, nothing otherwise. */
  lemma FilterMapSingle<A, B>(f: A -> Option<B>, x: A)
    ensures FilterMap(f, [x]) == (match f(x) case Some(y) => [y] case None => [])
  {
    assert [x][1..] == [];
  }

  /** Each element is handled on its own: the result for `a + b` is the result for `a` followed by the result for `b`. */
  lemma {:induction false} FilterMapAppend<A, B>(f: A -> Option<B>, a: seq<A>, b: seq<A>)
    ensures FilterMap(f, a + b) == FilterMap(f, a) + FilterMap(f, b)
  {
    if a == [] {
      assert a + b == b;
    } else {
      assert (a + b)[0] == a[0];
      assert (a + b)[1..] == a[1..] + b;
      FilterMapAppend(f, a[1..], b);
    }
  }

  /** Appending one element appends its image, if any: together with the empty case this determines the result. */
  lemma FilterMapSnoc<A, B>(f: A -> Option<B>, xs: seq<A>, x: A)
    ensures FilterMap(f, xs + [x]) == FilterMap(f, xs) + (match f(x) case Some(y) => [y] case None => [])
  {
    FilterMapAppend(f, xs, [x]);
    FilterMapSingle(f, x);
  }

  /** The number of results is the number of elements that have an image. */
  lemma {:induction false} FilterMapLength<A(!new), B>(f: A -> Option<B>, has: A -> bool, xs: seq<A>)
    requires forall x :: has(x) == f(x).Some?
    ensures |FilterMap(f, xs)| == |Filter(has, xs)|
  {
    if xs != [] {
      FilterMapLength(f, has, xs[1..]);
    }
  }

  /** Removes repeated elements, keeping each first occurrence in place. */
  function Dedup<T(==,!new)>(xs: seq<T>): (r: seq<T>)
    ensures Distinct(r)
    ensures forall x :: x in r <==> x in xs
    ensures IsSubsequence(r, xs)
  {
    if xs == [] then []
    else
      var init := xs[..|xs| - 1];
      var last := xs[|xs| - 1];
      var rest := Dedup(init);
      assert xs == init + [last];
      assert forall x :: x in xs <==> x in init || x == last;
      if last in rest then
        SubsequenceAppendRight(rest, init, last);
        rest
      else
        SubsequenceSnoc(rest, init, last);
        rest + [last]
  }

  lemma {:induction false} SubsequenceAppendRight<T>(xs: seq<T>, ys: seq<T>, y: T)
    requires IsSubsequence(xs, ys)
    ensures IsSubsequence(xs, ys + [y])
    decreases |ys|
  {
    if xs == [] {
    } else if ys == [] {
    } else {
      assert (ys + [y])[0] == ys[0];
      assert (ys + [y])[1..] == ys[1..] + [y];
      if xs[0] == ys[0] {
        SubsequenceAppendRight(xs[1..], ys[1..], y);
      } else {
        SubsequenceAppendRight(xs, ys[1..], y);
      }
    }
  }

  lemma {:induction false} SubsequenceSnoc<T>(xs: seq<T>, ys: seq<T>, y: T)
    requires IsSubsequence(xs, ys)
    ensures IsSubsequence(xs + [y], ys + [y])
    decreases |ys|
  {
    if xs == [] {
      if ys == [] {
        assert ([y] + [])[1..] == [];
      } else {
        assert (ys + [y])[1..] == ys[1..] + [y];
        SubsequenceSnoc(xs, ys[1..], y);
        assert [] + [y] == [y];
        if ys[0] == y {
          assert IsSubsequence([y][1..], (ys + [y])[1..]);
        }
      }
    } else {
      assert ys != [];
      assert (ys + [y])[0] == ys[0];
      assert (ys + [y])[1..] == ys[1..] + [y];
      assert (xs + [y])[0] == xs[0];
      assert (xs + [y])[1..] == xs[1..] + [y];
      if xs[0] == ys[0] {
        SubsequenceSnoc(xs[1..], ys[1..], y);
      } else {
        SubsequenceSnoc(xs, ys[1..], y);
      }
    }
  }
}
