/**
 * `dataframe_columns` of singupy/verification.py over the frame's column names: either every
 * expected column must be present (extra columns allowed), or the sorted column lists must be
 * equal.
 */
module Verification {
  import opened Base

  type Column = string

  // ---------------------------------------------------------------------------------------------
  // Python's order on str and `sorted`
  // ---------------------------------------------------------------------------------------------

  /** Python's `<=` on str: code point by code point, a proper prefix before its extensions. */
  predicate StrLe(a: string, b: string)
    decreases |a|
  {
    a == [] || (b != [] && (a[0] < b[0] || (a[0] == b[0] && StrLe(a[1..], b[1..]))))
  }

  lemma {:induction false} StrLeTotal(a: string, b: string)
    ensures StrLe(a, b) || StrLe(b, a)
    decreases |a|
  {
    if a != [] && b != [] && a[0] == b[0] {
      StrLeTotal(a[1..], b[1..]);
    }
  }

  lemma {:induction false} StrLeAntisymmetric(a: string, b: string)
    requires StrLe(a, b) && StrLe(b, a)
    ensures a == b
    decreases |a|
  {
    if a != [] {
      StrLeAntisymmetric(a[1..], b[1..]);
      assert a == [a[0]] + a[1..] && b == [b[0]] + b[1..];
    }
  }

  lemma {:induction false} StrLeTransitive(a: string, b: string, c: string)
    requires StrLe(a, b) && StrLe(b, c)
    ensures StrLe(a, c)
    decreases |a|
  {
    if a != [] && a[0] == b[0] && b[0] == c[0] {
      StrLeTransitive(a[1..], b[1..], c[1..]);
    }
  }

  predicate Sorted(xs: seq<Column>) {
    forall i, j :: 0 <= i < j < |xs| ==> StrLe(xs[i], xs[j])
  }

  /** `x` is at or below every element of `xs`. */
  predicate Below(x: Column, xs: seq<Column>) {
    forall i :: 0 <= i < |xs| ==> StrLe(x, xs[i])
  }

  /** Inserting into a sorted list keeps it sorted and adds exactly that one element. */
  function Insert(x: Column, xs: seq<Column>): (r: seq<Column>)
    requires Sorted(xs)
    ensures Sorted(r) && multiset(r) == multiset(xs) + multiset{x}
    decreases |xs|
  {
    if xs == [] then [x]
    else if StrLe(x, xs[0]) then
      assert Below(x, xs) by {
        forall i | 0 <= i < |xs| ensures StrLe(x, xs[i]) {
          if i > 0 {
            StrLeTransitive(x, xs[0], xs[i]);
          }
        }
      }
      assert xs == [xs[0]] + xs[1..];
      [x] + xs
    else
      StrLeTotal(x, xs[0]);
      var rest := Insert(x, xs[1..]);
      assert Below(xs[0], rest) by {
        forall i | 0 <= i < |rest| ensures StrLe(xs[0], rest[i]) {
          assert rest[i] in multiset(rest);
          if rest[i] != x {
            var j :| 1 <= j < |xs| && xs[j] == rest[i] by {
              assert rest[i] in multiset(xs[1..]);
              assert rest[i] in xs[1..];
            }
          }
        }
      }
      assert xs == [xs[0]] + xs[1..];
      [xs[0]] + rest
  }

  /** `sorted(xs)`: a sorted permutation of the list. */
  function Sort(xs: seq<Column>): (r: seq<Column>)
    ensures Sorted(r) && multiset(r) == multiset(xs)
    decreases |xs|
  {
    if xs == [] then []
    else
      assert xs == xs[..|xs| - 1] + [xs[|xs| - 1]];
      Insert(xs[|xs| - 1], Sort(xs[..|xs| - 1]))
  }

  lemma SortedTail(xs: seq<Column>)
    requires Sorted(xs) && xs != []
    ensures Sorted(xs[1..])
  {
    forall i, j | 0 <= i < j < |xs| - 1 ensures StrLe(xs[1..][i], xs[1..][j]) {
      assert xs[1..][i] == xs[i + 1] && xs[1..][j] == xs[j + 1];
    }
  }

  /** Two sorted lists with the same elements, counted with multiplicity, are the same list. */
  lemma {:induction false} SortedUnique(a: seq<Column>, b: seq<Column>)
    requires Sorted(a) && Sorted(b) && multiset(a) == multiset(b)
    ensures a == b
    decreases |a|
  {
    if a != [] {
      assert |b| == |a| by {
        assert |multiset(a)| == |a| && |multiset(b)| == |b|;
      }
      assert a[0] in multiset(b);
      assert b[0] in multiset(a);
      var i :| 0 <= i < |b| && b[i] == a[0];
      var j :| 0 <= j < |a| && a[j] == b[0];
      assert StrLe(b[0], a[0]) by {
        if i > 0 {
          assert StrLe(b[0], b[i]);
        } else {
          StrLeTotal(a[0], a[0]);
        }
      }
      assert StrLe(a[0], b[0]) by {
        if j > 0 {
          assert StrLe(a[0], a[j]);
        }
      }
      StrLeAntisymmetric(a[0], b[0]);
      assert multiset(a[1..]) == multiset(b[1..]) by {
        assert a == [a[0]] + a[1..] && b == [b[0]] + b[1..];
        assert multiset(a) == multiset{a[0]} + multiset(a[1..]);
        assert multiset(b) == multiset{b[0]} + multiset(b[1..]);
        forall x ensures multiset(a[1..])[x] == multiset(b[1..])[x] {
          assert multiset(a)[x] == multiset(b)[x];
        }
      }
      SortedTail(a);
      SortedTail(b);
      SortedUnique(a[1..], b[1..]);
      assert a == [a[0]] + a[1..] && b == [b[0]] + b[1..];
    }
  }

  /** Sorting two lists gives the same list exactly when they hold the same elements with the same multiplicities. */
  lemma SortEqualIffPermutation(a: seq<Column>, b: seq<Column>)
    ensures Sort(a) == Sort(b) <==> multiset(a) == multiset(b)
  {
    if multiset(a) == multiset(b) {
      SortedUnique(Sort(a), Sort(b));
    }
  }

  // ---------------------------------------------------------------------------------------------
  // dataframe_columns
  // ---------------------------------------------------------------------------------------------

  /** The two ValueErrors: the missing columns (extra columns allowed), or the two lists (strict). */
  datatype ColumnError = Missing(columns: set<Column>) | Mismatch(actual: seq<Column>, expected: seq<Column>)

  /**
   * `dataframe_columns(dataframe, expected_columns, allow_extra_columns)` on the frame's column
   * list `actual`. With extra columns allowed it passes exactly when every expected column is
   * present and otherwise names the (never empty) set of missing ones; in strict mode it passes
   * exactly when both lists hold the same columns with the same multiplicities.
   */
  function DataframeColumns(actual: seq<Column>, expected: seq<Column>, allowExtra: bool): (r: Result<(), ColumnError>)
    ensures allowExtra ==> (r.Success? <==> Elems(expected) <= Elems(actual))
    ensures allowExtra && r.Failure? ==> r.error == Missing(Elems(expected) - Elems(actual)) && r.error.columns != {}
    ensures !allowExtra ==> (r.Success? <==> multiset(actual) == multiset(expected))
    ensures !allowExtra && r.Failure? ==> r.error == Mismatch(actual, expected)
  {
    if allowExtra then
      if forall c :: c in expected ==> c in actual then Success(())
      else
        var c :| c in expected && c !in actual;
        assert c in Elems(expected) - Elems(actual);
        Failure(Missing(Elems(expected) - Elems(actual)))
    else
      SortEqualIffPermutation(actual, expected);
      if Sort(actual) == Sort(expected) then Success(()) else Failure(Mismatch(actual, expected))
  }

  /** Whatever passes the strict comparison passes with extra columns allowed. */
  lemma StrictImpliesExtra(actual: seq<Column>, expected: seq<Column>)
    requires DataframeColumns(actual, expected, false).Success?
    ensures DataframeColumns(actual, expected, true).Success?
  {
    forall c | c in expected ensures c in actual {
      assert c in multiset(expected);
    }
  }

  /** Column order never matters, in either mode. */
  lemma OrderIndependent(actual: seq<Column>, expected: seq<Column>, actual': seq<Column>, expected': seq<Column>, allowExtra: bool)
    requires multiset(actual') == multiset(actual) && multiset(expected') == multiset(expected)
    ensures DataframeColumns(actual', expected', allowExtra).Success? <==> DataframeColumns(actual, expected, allowExtra).Success?
  {
    if allowExtra {
      assert forall c :: c in actual' <==> c in multiset(actual');
      assert forall c :: c in expected' <==> c in multiset(expected');
      assert forall c :: c in actual <==> c in multiset(actual);
      assert forall c :: c in expected <==> c in multiset(expected);
    }
  }

  /** The cases of the module's test on a frame with columns col1 and col2. */
  lemma TestCases()
    ensures DataframeColumns(["col1", "col2"], ["col1", "col2"], false).Success?
    ensures DataframeColumns(["col1", "col2"], ["col1"], true).Success?
    ensures DataframeColumns(["col1", "col2"], ["col1"], false).Failure?
    ensures DataframeColumns(["col1", "col2"], ["col1", "col3"], false).Failure?
    ensures DataframeColumns(["col1", "col2"], ["col1", "col3"], true) == Failure(Missing({"col3"}))
  {
    assert |multiset(["col1", "col2"])| != |multiset(["col1"])|;
    assert "col2" in multiset(["col1", "col2"]) && "col2" !in multiset(["col1", "col3"]);
    assert Elems(["col1", "col3"]) - Elems(["col1", "col2"]) == {"col3"};
  }
}
