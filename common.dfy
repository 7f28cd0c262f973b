/** Small shared vocabulary: the optional value used for the source's `Option`s and for
    the panics of `unwrap`, the `u32` limit, and sums over sequences of sizes. */
module Common {

  datatype Option<T> = None | Some(value: T)

  /** The largest `u32`, the default maximum size of a layout item. */
  const U32_MAX: nat := 0xFFFF_FFFF

  function Max(a: int, b: int): (m: int)
    ensures m >= a && m >= b
    ensures m == a || m == b
  {
    if a < b then b else a
  }

  function Min(a: int, b: int): (m: int)
    ensures m <= a && m <= b
    ensures m == a || m == b
  {
    if a < b then a else b
  }

  /** The sum of a sequence of sizes, folded from the front as the source's loops do. */
  function Sum(s: seq<nat>): nat
  {
    if s == [] then 0 else Sum(s[..|s| - 1]) + s[|s| - 1]
  }

  lemma SumOfOne(a: nat)
    ensures Sum([a]) == a
  {
    assert [a][..0] == [];
  }

  lemma SumOfTwo(a: nat, b: nat)
    ensures Sum([a, b]) == a + b
  {
    assert [a, b][..1] == [a];
    SumOfOne(a);
  }

  lemma SumOfThree(a: nat, b: nat, c: nat)
    ensures Sum([a, b, c]) == a + b + c
  {
    assert [a, b, c][..2] == [a, b];
    SumOfTwo(a, b);
  }

  lemma {:induction false} SumConcat(a: seq<nat>, b: seq<nat>)
    ensures Sum(a + b) == Sum(a) + Sum(b)
    decreases |b|
  {
    if b == [] {
      assert a + b == a;
    } else {
      assert (a + b)[..|a + b| - 1] == a + b[..|b| - 1];
      SumConcat(a, b[..|b| - 1]);
    }
  }

  /** Extending a prefix by one element adds that element: the step of every summing loop. */
  lemma SumPrefixStep(s: seq<nat>, i: nat)
    requires i < |s|
    ensures Sum(s[..i + 1]) == Sum(s[..i]) + s[i]
  {
    assert s[..i + 1][..i] == s[..i];
  }

  /** Multiplication distributes over a sum. */
  lemma MulAddDistributes(d: nat, x: nat, y: nat)
    ensures d * x + d * y == d * (x + y)
  {
  }

  /** A prefix sums to at most the whole. */
  lemma SumPrefixAtMostSum(s: seq<nat>, i: nat)
    requires i <= |s|
    ensures Sum(s[..i]) <= Sum(s)
  {
    SumConcat(s[..i], s[i..]);
    assert s[..i] + s[i..] == s;
  }

  /** Removing the element at `j` subtracts it from the sum. */
  lemma SumRemove(s: seq<nat>, j: nat)
    requires j < |s|
    ensures Sum(s[..j] + s[j + 1..]) + s[j] == Sum(s)
  {
    SumConcat(s[..j], s[j + 1..]);
    SumConcat(s[..j], [s[j]]);
    SumConcat(s[..j] + [s[j]], s[j + 1..]);
    assert s[..j] + [s[j]] + s[j + 1..] == s;
    assert Sum([s[j]]) == s[j] by { assert [s[j]][..0] == []; }
  }

  /** All elements are zero exactly when the sum is. */
  lemma {:induction false} SumZero(s: seq<nat>)
    ensures Sum(s) == 0 <==> forall i :: 0 <= i < |s| ==> s[i] == 0
  {
    if s != [] {
      SumZero(s[..|s| - 1]);
      assert forall i :: 0 <= i < |s| - 1 ==> s[..|s| - 1][i] == s[i];
    }
  }

  /** Every element is at most the sum. */
  lemma {:induction false} ElementAtMostSum(s: seq<nat>, j: nat)
    requires j < |s|
    ensures s[j] <= Sum(s)
  {
    if j < |s| - 1 {
      ElementAtMostSum(s[..|s| - 1], j);
    }
  }
}
