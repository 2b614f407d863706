/** What holds of any register that is fed one item after the other, whatever the items are. */
module Folding {

  /** The register after all the data. */
  function Fold<T>(feed: (T, T) -> T, c: T, data: seq<T>): T {
    if data == [] then c else feed(Fold(feed, c, data[..|data| - 1]), data[|data| - 1])
  }

  /** The n-th iterate of a function. */
  function Iterate<T>(f: T -> T, x: T, n: nat): T
    decreases n, x
  {
    if n == 0 then x else f(Iterate(f, x, n - 1))
  }

  ghost predicate AdditiveAt<T>(f: T -> T, add: (T, T) -> T, x: T, y: T) {
    f(add(x, y)) == add(f(x), f(y))
  }

  lemma {:induction false} IterateAdditive<T(!new)>(f: T -> T, add: (T, T) -> T, x: T, y: T, n: nat)
    requires forall x: T, y: T :: AdditiveAt(f, add, x, y)
    ensures AdditiveAt((z: T) => Iterate(f, z, n), add, x, y)
  {
    if n > 0 {
      IterateAdditive(f, add, x, y, n - 1);
      assert AdditiveAt(f, add, Iterate(f, x, n - 1), Iterate(f, y, n - 1));
    }
  }

  /** Two sequences added item by item. */
  function Added<T>(add: (T, T) -> T, a: seq<T>, b: seq<T>): (r: seq<T>)
    requires |a| == |b|
    ensures |r| == |a|
  {
    seq(|a|, i requires 0 <= i < |a| => add(a[i], b[i]))
  }

  ghost predicate LinearAt<T>(feed: (T, T) -> T, add: (T, T) -> T, r: T, s: T, x: T, y: T) {
    feed(add(r, s), add(x, y)) == add(feed(r, x), feed(s, y))
  }

  ghost predicate Linear<T(!new)>(feed: (T, T) -> T, add: (T, T) -> T) {
    forall r: T, s: T, x: T, y: T :: LinearAt(feed, add, r, s, x, y)
  }

  /** Feeding the sum of two sequences gives the sum of the registers. */
  lemma {:induction false} FoldLinear<T(!new)>(feed: (T, T) -> T, add: (T, T) -> T, c: T, d: T, a: seq<T>, b: seq<T>)
    requires Linear(feed, add) && |a| == |b|
    ensures Fold(feed, add(c, d), Added(add, a, b)) == add(Fold(feed, c, a), Fold(feed, d, b))
  {
    if a != [] {
      var n := |a| - 1;
      FoldLinear(feed, add, c, d, a[..n], b[..n]);
      assert Added(add, a, b)[..n] == Added(add, a[..n], b[..n]);
      var (r, s) := (Fold(feed, c, a[..n]), Fold(feed, d, b[..n]));
      assert LinearAt(feed, add, r, s, a[n], b[n]);
    }
  }

  lemma {:induction false} FoldAppend<T>(feed: (T, T) -> T, c: T, a: seq<T>, b: seq<T>)
    ensures Fold(feed, c, a + b) == Fold(feed, Fold(feed, c, a), b)
  {
    if b == [] {
      assert a + b == a;
    } else {
      var n := |b| - 1;
      FoldAppend(feed, c, a, b[..n]);
      assert (a + b)[..|a| + n] == a + b[..n];
    }
  }

  /** Only zero is fed to zero by a zero. */
  ghost predicate KeepsZero<T(!new)>(feed: (T, T) -> T, zero: T) {
    forall r: T :: feed(r, zero) == zero <==> r == zero
  }

  lemma {:induction false} FoldZeros<T(!new)>(feed: (T, T) -> T, zero: T, c: T, data: seq<T>)
    requires KeepsZero(feed, zero) && forall i :: 0 <= i < |data| ==> data[i] == zero
    ensures Fold(feed, c, data) == zero <==> c == zero
  {
    if data != [] {
      FoldZeros(feed, zero, c, data[..|data| - 1]);
    }
  }

  /** Whether an odd number of the items has the property. */
  function OddCount<T>(odd: T -> bool, data: seq<T>): bool {
    if data == [] then false else OddCount(odd, data[..|data| - 1]) != odd(data[|data| - 1])
  }

  lemma {:induction false} FoldOdd<T(!new)>(feed: (T, T) -> T, odd: T -> bool, c: T, data: seq<T>)
    requires forall r: T, x: T :: odd(feed(r, x)) == (odd(r) != odd(x))
    ensures odd(Fold(feed, c, data)) == (odd(c) != OddCount(odd, data))
  {
    if data != [] {
      FoldOdd(feed, odd, c, data[..|data| - 1]);
    }
  }

  /** The sum over all items. */
  function Total<T>(count: T -> nat, data: seq<T>): nat {
    if data == [] then 0 else Total(count, data[..|data| - 1]) + count(data[|data| - 1])
  }

  lemma {:induction false} OddTotal<T(!new)>(odd: T -> bool, count: T -> nat, data: seq<T>)
    requires forall x: T :: odd(x) <==> count(x) % 2 == 1
    ensures OddCount(odd, data) <==> Total(count, data) % 2 == 1
  {
    if data != [] {
      OddTotal(odd, count, data[..|data| - 1]);
    }
  }
}
