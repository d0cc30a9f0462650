/** Sequence helpers shared by the query layer: the nested iteration of a
    conjunctive pattern (`FlatMap`) and the duplicate elimination of a
    `SELECT DISTINCT` (`Dedup`). */
module Seqs {

  /** No element occurs twice. */
  predicate NoDup<T(==)>(xs: seq<T>) {
    forall i, j :: 0 <= i < j < |xs| ==> xs[i] != xs[j]
  }

  /** A duplicate-free sequence that holds `x` and nothing else is `[x]`. */
  lemma OnlyElement<T>(xs: seq<T>, x: T)
    requires NoDup(xs) && x in xs
    requires forall y :: y in xs ==> y == x
    ensures xs == [x]
  {
    assert xs[0] in xs;
    assert xs[|xs| - 1] in xs;
  }

  /** Two duplicate-free sequences with no element in common concatenate to
      a duplicate-free sequence. */
  lemma NoDupAppend<T>(a: seq<T>, b: seq<T>)
    requires NoDup(a) && NoDup(b)
    requires forall x :: x in a ==> x !in b
    ensures NoDup(a + b)
  {
    var c := a + b;
    forall i, j | 0 <= i < j < |c|
      ensures c[i] != c[j]
    {
      if j < |a| {
        assert c[i] == a[i] && c[j] == a[j];
      } else if i >= |a| {
        assert c[i] == b[i - |a|] && c[j] == b[j - |a|];
      } else {
        assert c[i] == a[i] && c[j] == b[j - |a|];
        assert a[i] in a && b[j - |a|] in b;
      }
    }
  }

  /** Concatenation of `f(x)` for every `x` of `xs`, in the order of `xs`. */
  function FlatMap<T(!new), U(!new)>(xs: seq<T>, f: T -> seq<U>): (r: seq<U>)
    ensures forall y :: y in r <==> exists x :: x in xs && y in f(x)
  {
    if |xs| == 0 then []
    else
      var rest := FlatMap(xs[1..], f);
      assert forall x :: x in xs <==> x == xs[0] || x in xs[1..];
      f(xs[0]) + rest
  }

  /** The parts `f(x)` are the solutions of distinct inputs: when the inputs
      are distinct, every part is duplicate-free and the parts of different
      inputs share nothing, the concatenation holds no duplicate. */
  lemma {:induction false} FlatMapNoDup<T(!new), U(!new)>(xs: seq<T>, f: T -> seq<U>)
    requires NoDup(xs)
    requires forall x :: x in xs ==> NoDup(f(x))
    requires forall x, y, z :: x in xs && y in xs && x != y && z in f(x) ==> z !in f(y)
    ensures NoDup(FlatMap(xs, f))
    decreases |xs|
  {
    if |xs| > 0 {
      var tail := xs[1..];
      assert forall x :: x in tail ==> x in xs;
      assert NoDup(tail) by {
        forall i, j | 0 <= i < j < |tail|
          ensures tail[i] != tail[j]
        {
          assert tail[i] == xs[i + 1] && tail[j] == xs[j + 1];
        }
      }
      FlatMapNoDup(tail, f);
      assert xs[0] !in tail by {
        forall k | 0 <= k < |tail|
          ensures tail[k] != xs[0]
        {
          assert tail[k] == xs[k + 1];
        }
      }
      assert forall z :: z in f(xs[0]) ==> z !in FlatMap(tail, f) by {
        forall z | z in f(xs[0])
          ensures z !in FlatMap(tail, f)
        {
          assert xs[0] in xs;
        }
      }
      assert xs[0] in xs;
      NoDupAppend(f(xs[0]), FlatMap(tail, f));
    }
  }

  /** The first occurrence of every element of `xs`, in order. */
  function Dedup<T(==,!new)>(xs: seq<T>): (r: seq<T>)
    ensures forall x :: x in r <==> x in xs
    ensures NoDup(r)
    ensures |r| <= |xs|
  {
    if |xs| == 0 then []
    else
      var init := xs[..|xs| - 1];
      var last := xs[|xs| - 1];
      var rest := Dedup(init);
      assert xs == init + [last];
      if last in rest then rest else rest + [last]
  }
}
