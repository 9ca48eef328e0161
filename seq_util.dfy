/** Small sequence helpers shared by the timetable engine and the cart. */
module SeqUtil {

  function Min(a: int, b: int): int { if a <= b then a else b }

  /** The first `n` elements of `xs` (all of them when `n >= |xs|`, none when `n <= 0`),
      as JavaScript's `slice(0, n)` and as a list that stops growing at `n`. */
  function Take<T>(xs: seq<T>, n: int): (r: seq<T>)
    ensures |r| == if n <= 0 then 0 else Min(n, |xs|)
    ensures r <= xs
  {
    if n <= 0 then [] else xs[..Min(n, |xs|)]
  }

  lemma TakeAppend<T>(a: seq<T>, b: seq<T>, n: int)
    ensures n <= |a| ==> Take(a + b, n) == Take(a, n)
    ensures n > |a| ==> Take(a + b, n) == a + Take(b, n - |a|)
  {
    if n > |a| {
      assert (a + b)[..Min(n, |a| + |b|)] == a + b[..Min(n - |a|, |b|)];
    } else if n > 0 {
      assert (a + b)[..n] == a[..n];
    }
  }

  /** Once a prefix of `ys` is long enough, taking `n` from it or from `ys` is the same. */
  lemma TakeOfPrefix<T>(xs: seq<T>, ys: seq<T>, n: int)
    requires xs <= ys && n <= |xs|
    ensures Take(xs, n) == Take(ys, n)
  {
  }

  /** `xs` with the element at index `i` cut out, as JavaScript's `splice(i, 1)`. */
  function RemoveAt<T>(xs: seq<T>, i: int): (r: seq<T>)
    requires 0 <= i < |xs|
    ensures |r| == |xs| - 1
    ensures forall k :: 0 <= k < i ==> r[k] == xs[k]
    ensures forall k :: i <= k < |r| ==> r[k] == xs[k + 1]
  {
    xs[..i] + xs[i + 1..]
  }

  /** The position of the first occurrence of `x` in `xs`, as `indexOf`. */
  function IndexOf<T(==)>(xs: seq<T>, x: T): (i: nat)
    requires x in xs
    ensures i < |xs| && xs[i] == x
    ensures x !in xs[..i]
  {
    if xs[0] == x then 0 else 1 + IndexOf(xs[1..], x)
  }

  /** Every element of `xs` except the occurrences of `x`, in order (deleting from a set).
      In a duplicate-free sequence this is splicing out the one occurrence. */
  function Without<T(==,!new)>(xs: seq<T>, x: T): (r: seq<T>)
    ensures x !in r
    ensures forall y {:trigger y in r} :: y in r <==> y in xs && y != x
    ensures |r| <= |xs|
    ensures x !in xs ==> r == xs
    ensures Distinct(xs) && x in xs ==> r == RemoveAt(xs, IndexOf(xs, x))
  {
    if xs == [] then []
    else if xs[0] == x then
      assert Distinct(xs) ==> x !in xs[1..];
      Without(xs[1..], x)
    else
      assert Distinct(xs) ==> Distinct(xs[1..]);
      assert x in xs ==> xs[..IndexOf(xs, x)] == [xs[0]] + xs[1..][..IndexOf(xs[1..], x)];
      [xs[0]] + Without(xs[1..], x)
  }

  predicate Distinct<T(==)>(xs: seq<T>) {
    forall i, j :: 0 <= i < j < |xs| ==> xs[i] != xs[j]
  }

  lemma {:induction false} WithoutDistinct<T(!new)>(xs: seq<T>, x: T)
    requires Distinct(xs)
    ensures Distinct(Without(xs, x))
  {
    if xs != [] {
      WithoutDistinct(xs[1..], x);
      var rest := Without(xs[1..], x);
      if xs[0] != x {
        assert xs[0] !in rest by {
          assert xs[0] !in xs[1..];
        }
        assert Distinct([xs[0]] + rest) by {
          forall i, j | 0 <= i < j < |[xs[0]] + rest|
            ensures ([xs[0]] + rest)[i] != ([xs[0]] + rest)[j]
          {
            if i == 0 {
              assert ([xs[0]] + rest)[j] == rest[j - 1];
            }
          }
        }
      }
    }
  }

  lemma AppendFreshDistinct<T>(xs: seq<T>, x: T)
    requires Distinct(xs) && x !in xs
    ensures Distinct(xs + [x])
  {
  }
}
