/** Failure-carrying wrappers and the few Python list operations the helpers rely on. */
module Base {

  /** Python's `None`-or-value. */
  datatype Option<+T> = None | Some(value: T)

  /** A value or the exception that replaced it. */
  datatype Result<+T, +E> = Success(value: T) | Failure(error: E)

  /** The elements of a list, as a set. */
  function Elems<T>(xs: seq<T>): set<T> {
    set x | x in xs
  }

  lemma ElemsAppend<T>(a: seq<T>, b: seq<T>)
    ensures Elems(a + b) == Elems(a) + Elems(b)
  {
    assert forall x :: x in a + b <==> x in a || x in b;
  }

  predicate Distinct<T(==)>(xs: seq<T>) {
    forall i, j :: 0 <= i < j < |xs| ==> xs[i] != xs[j]
  }

  /** A list without repeats stays without repeats when one element is dropped. */
  lemma DistinctDrop<T>(pre: seq<T>, x: T, post: seq<T>)
    requires Distinct(pre + [x] + post)
    ensures Distinct(pre + post) && x !in pre && x !in post
  {
    var xs := pre + [x] + post;
    assert forall i :: 0 <= i < |pre| ==> xs[i] == pre[i];
    assert forall i :: 0 <= i < |post| ==> xs[|pre| + 1 + i] == post[i];
    assert xs[|pre|] == x;
  }

  /** `a` is obtained from `b` by deleting elements, keeping the order of the rest. */
  predicate IsSubsequence<T(==)>(a: seq<T>, b: seq<T>)
    decreases |b|
  {
    if b == [] then a == []
    else (a != [] && a[0] == b[0] && IsSubsequence(a[1..], b[1..])) || IsSubsequence(a, b[1..])
  }

  lemma {:induction false} SubsequenceElems<T>(a: seq<T>, b: seq<T>)
    requires IsSubsequence(a, b)
    ensures Elems(a) <= Elems(b)
    ensures |a| <= |b|
    decreases |b|
  {
    if b != [] {
      assert b == [b[0]] + b[1..];
      ElemsAppend([b[0]], b[1..]);
      if a != [] && a[0] == b[0] && IsSubsequence(a[1..], b[1..]) {
        SubsequenceElems(a[1..], b[1..]);
        assert a == [a[0]] + a[1..];
        ElemsAppend([a[0]], a[1..]);
      } else {
        SubsequenceElems(a, b[1..]);
      }
    }
  }

  /** Deleting elements from a list without repeats leaves a list without repeats. */
  lemma {:induction false} SubsequenceDistinct<T>(a: seq<T>, b: seq<T>)
    requires IsSubsequence(a, b) && Distinct(b)
    ensures Distinct(a)
    decreases |b|
  {
    if b != [] {
      assert Distinct(b[1..]) by {
        forall i, j | 0 <= i < j < |b[1..]| ensures b[1..][i] != b[1..][j] {
          assert b[1..][i] == b[i + 1] && b[1..][j] == b[j + 1];
        }
      }
      if a != [] && a[0] == b[0] && IsSubsequence(a[1..], b[1..]) {
        SubsequenceDistinct(a[1..], b[1..]);
        SubsequenceElems(a[1..], b[1..]);
        forall i, j | 0 <= i < j < |a| ensures a[i] != a[j] {
          if i == 0 {
            assert a[j] == a[1..][j - 1] && a[j] in Elems(a[1..]);
            var k :| 0 <= k < |b[1..]| && b[1..][k] == a[j];
            assert b[k + 1] == a[j];
          } else {
            assert a[i] == a[1..][i - 1] && a[j] == a[1..][j - 1];
          }
        }
      } else {
        SubsequenceDistinct(a, b[1..]);
      }
    }
  }

  /** `list.remove(x)`: drops the first occurrence of `x`; `None` stands for the ValueError raised when there is none. */
  function RemoveFirst<T(==)>(xs: seq<T>, x: T): (r: Option<seq<T>>)
    ensures r.None? <==> x !in xs
  {
    if xs == [] then None
    else if xs[0] == x then Some(xs[1..])
    else match RemoveFirst(xs[1..], x)
      case None => None
      case Some(rest) => Some([xs[0]] + rest)
  }

  /** A successful `list.remove(x)` takes out exactly one `x` and nothing else. */
  lemma {:induction false} RemoveFirstCounts<T>(xs: seq<T>, x: T)
    ensures RemoveFirst(xs, x).Some? ==>
              |RemoveFirst(xs, x).value| + 1 == |xs| && multiset(RemoveFirst(xs, x).value) + multiset{x} == multiset(xs)
    decreases |xs|
  {
    if xs != [] {
      assert xs == [xs[0]] + xs[1..];
      RemoveFirstCounts(xs[1..], x);
    }
  }

  /** Removing an element that occurs nowhere before position |pre| takes out exactly that position. */
  lemma {:induction false} RemoveFirstAt<T>(pre: seq<T>, x: T, post: seq<T>)
    requires x !in pre
    ensures RemoveFirst(pre + [x] + post, x) == Some(pre + post)
    decreases |pre|
  {
    if pre == [] {
      var xs := [x] + post;
      assert pre + [x] + post == xs;
      assert xs[0] == x && xs[1..] == post;
      assert RemoveFirst(xs, x) == Some(xs[1..]);
      assert pre + post == post;
    } else {
      var xs := pre + [x] + post;
      assert xs[0] == pre[0] && xs[1..] == pre[1..] + [x] + post by {
        assert xs == [pre[0]] + (pre[1..] + [x] + post);
      }
      RemoveFirstAt(pre[1..], x, post);
      assert [pre[0]] + (pre[1..] + post) == pre + post by {
        assert pre == [pre[0]] + pre[1..];
      }
    }
  }

  /** Keeps the first occurrence of every element (the model's order for `list(set(xs))`, whose order Python leaves to hashing). */
  function Dedupe<T(==)>(xs: seq<T>): (r: seq<T>)
    ensures Distinct(r)
    ensures Elems(r) == Elems(xs)
    decreases |xs|
  {
    if xs == [] then []
    else
      var init := Dedupe(xs[..|xs| - 1]);
      var last := xs[|xs| - 1];
      assert xs == xs[..|xs| - 1] + [last];
      ElemsAppend(xs[..|xs| - 1], [last]);
      ElemsAppend(init, [last]);
      if last in init then init else init + [last]
  }

  /** The first position at or after `j` holding `true`, if any. */
  function FirstTrue(f: seq<bool>, j: nat): (r: Option<nat>)
    requires j <= |f|
    ensures r.Some? ==> j <= r.value < |f| && f[r.value] && forall k :: j <= k < r.value ==> !f[k]
    ensures r.None? ==> forall k :: j <= k < |f| ==> !f[k]
    decreases |f| - j
  {
    if j == |f| then None else if f[j] then Some(j) else FirstTrue(f, j + 1)
  }

  /** The sequences one after the other: the poll batches of a drain loop, or the requests of a tree walk. */
  function Flatten<T>(bs: seq<seq<T>>): (r: seq<T>)
    decreases |bs|
  {
    if bs == [] then [] else Flatten(bs[..|bs| - 1]) + bs[|bs| - 1]
  }

  /** A single batch flattens to itself. */
  lemma FlattenOne<T>(xs: seq<T>)
    ensures Flatten([xs]) == xs
  {
    assert [xs][..0] == [];
  }

  /** Element `k` of batch `i` sits in the flattened sequence after all earlier batches. */
  lemma {:induction false} FlattenIndex<T>(bs: seq<seq<T>>, i: nat, k: nat)
    requires i < |bs| && k < |bs[i]|
    ensures |Flatten(bs[..i])| + |bs[i]| <= |Flatten(bs)|
    ensures Flatten(bs)[|Flatten(bs[..i])| + k] == bs[i][k]
    decreases |bs|
  {
    var n := |bs| - 1;
    if i < n {
      FlattenIndex(bs[..n], i, k);
      assert bs[..n][..i] == bs[..i];
      assert bs[..n][i] == bs[i];
    } else {
      assert bs[..i] == bs[..n];
    }
  }

  /** Element `k` of batch `i` sits in any sequence that wraps the flattened batches, shifted by what comes before. */
  lemma FlattenIndexAfter<T>(head: seq<T>, bs: seq<seq<T>>, tail: seq<T>, whole: seq<T>, i: nat, k: nat)
    requires i < |bs| && k < |bs[i]| && whole == head + Flatten(bs) + tail
    ensures |head| + |Flatten(bs[..i])| + k < |whole|
    ensures whole[|head| + |Flatten(bs[..i])| + k] == bs[i][k]
  {
    FlattenIndex(bs, i, k);
  }

  /** Batch `i` fits in the flattened sequence after all earlier batches. */
  lemma {:induction false} FlattenBlock<T>(bs: seq<seq<T>>, i: nat)
    requires i < |bs|
    ensures |Flatten(bs[..i])| + |bs[i]| <= |Flatten(bs)|
    decreases |bs|
  {
    var n := |bs| - 1;
    if i < n {
      FlattenBlock(bs[..n], i);
      assert bs[..n][..i] == bs[..i];
      assert bs[..n][i] == bs[i];
    } else {
      assert bs[..i] == bs[..n];
    }
  }

  /** Batch `i` ends before batch `j` starts, for `i < j`. */
  lemma FlattenBlockBefore<T>(bs: seq<seq<T>>, i: nat, j: nat)
    requires i < j <= |bs|
    ensures |Flatten(bs[..i])| + |bs[i]| <= |Flatten(bs[..j])|
  {
    FlattenBlock(bs[..j], i);
    assert bs[..j][..i] == bs[..i];
  }

  /**
   * A block inside batch `i` sits in the flattened sequence, and in any sequence that starts with it,
   * shifted by the length of the earlier batches.
   */
  lemma FlattenBlockAt<T>(bs: seq<seq<T>>, i: nat, at: nat, xs: seq<T>, whole: seq<T>, pos: nat)
    requires i < |bs| && at + |xs| <= |bs[i]| && bs[i][at..at + |xs|] == xs
    requires Flatten(bs) <= whole && pos == |Flatten(bs[..i])| + at
    ensures pos + |xs| <= |whole| && whole[pos..pos + |xs|] == xs
  {
    FlattenBlock(bs, i);
    forall k | 0 <= k < |xs|
      ensures whole[pos + k] == xs[k]
    {
      assert bs[i][at + k] == xs[k];
      FlattenIndex(bs, i, at + k);
    }
  }

  /** Every element of the flattened sequence comes from one of the batches. */
  lemma {:induction false} FlattenMember<T>(bs: seq<seq<T>>, x: T)
    requires x in Flatten(bs)
    ensures exists i :: 0 <= i < |bs| && x in bs[i]
    decreases |bs|
  {
    var n := |bs| - 1;
    if x in Flatten(bs[..n]) {
      FlattenMember(bs[..n], x);
      var i :| 0 <= i < n && x in bs[..n][i];
      assert bs[..n][i] == bs[i];
    }
  }

  /** Flattening only empty batches gives nothing. */
  lemma {:induction false} FlattenEmpty<T>(bs: seq<seq<T>>)
    requires forall i :: 0 <= i < |bs| ==> bs[i] == []
    ensures Flatten(bs) == []
    decreases |bs|
  {
    if bs != [] {
      FlattenEmpty(bs[..|bs| - 1]);
    }
  }
}
