/** Small shared vocabulary: an optional value, JavaScript truthiness of an
    optional number, and order-preserving filtering of sequences. */
module Common {

  /** A value that may be absent (JavaScript `null`/`undefined`). */
  datatype Option<+T> = None | Some(value: T) {
    function GetOr(default: T): T {
      match this
      case Some(v) => v
      case None => default
    }
  }

  /** JavaScript truthiness of a number that may be missing: present and not zero.
      (NaN, the other falsy number, is represented by `None`.) */
  predicate Truthy(x: Option<real>) {
    x.Some? && x.value != 0.0
  }

  /** `xs.filter(keep)`: the elements satisfying `keep`, in their original order. */
  function Filter<T>(xs: seq<T>, keep: T -> bool): (r: seq<T>)
    ensures |r| <= |xs|
    ensures forall i :: 0 <= i < |r| ==> keep(r[i]) && r[i] in xs
    ensures forall i :: 0 <= i < |xs| && keep(xs[i]) ==> xs[i] in r
    ensures (forall i :: 0 <= i < |xs| ==> keep(xs[i])) ==> r == xs
  {
    if xs == [] then []
    else
      var rest := Filter(xs[1..], keep);
      assert xs == [xs[0]] + xs[1..];
      if keep(xs[0]) then [xs[0]] + rest else rest
  }

  /** How many elements of `xs` satisfy `keep` (`xs.filter(keep).length`). */
  function Count<T>(xs: seq<T>, keep: T -> bool): nat {
    |Filter(xs, keep)|
  }

  function Min(a: int, b: int): int {
    if a <= b then a else b
  }

  function Max(a: int, b: int): int {
    if a <= b then b else a
  }

  /** Filtering distributes over concatenation. */
  lemma {:induction false} FilterAppend<T>(xs: seq<T>, ys: seq<T>, keep: T -> bool)
    ensures Filter(xs + ys, keep) == Filter(xs, keep) + Filter(ys, keep)
  {
    if xs == [] {
      assert xs + ys == ys;
    } else {
      assert (xs + ys)[1..] == xs[1..] + ys;
      FilterAppend(xs[1..], ys, keep);
    }
  }

  /** Splitting a sequence by a predicate and its negation loses and adds nothing. */
  lemma {:induction false} FilterSplit<T>(xs: seq<T>, keep: T -> bool, drop: T -> bool)
    requires forall i :: 0 <= i < |xs| ==> drop(xs[i]) == !keep(xs[i])
    ensures multiset(Filter(xs, keep)) + multiset(Filter(xs, drop)) == multiset(xs)
  {
    if xs != [] {
      FilterSplit(xs[1..], keep, drop);
      assert xs == [xs[0]] + xs[1..];
    }
  }

  predicate NoDuplicates<T(==)>(xs: seq<T>) {
    forall i, j :: 0 <= i < j < |xs| ==> xs[i] != xs[j]
  }

  /** Appending a value not yet present keeps a sequence duplicate-free. */
  lemma AppendFresh<T>(xs: seq<T>, x: T)
    requires NoDuplicates(xs)
    ensures x !in xs ==> NoDuplicates(xs + [x])
  {
  }

  /** A duplicate-free sequence holds each value at most once. */
  lemma {:induction false} NoDuplicatesCount<T>(xs: seq<T>, x: T)
    requires NoDuplicates(xs)
    ensures multiset(xs)[x] <= 1
  {
    if xs != [] {
      assert xs == [xs[0]] + xs[1..];
      NoDuplicatesCount(xs[1..], x);
      if xs[0] == x {
        assert x !in xs[1..];
      }
    }
  }

  /** Two positions holding the same value make its multiplicity at least two. */
  lemma TwiceCounted<T>(xs: seq<T>, i: int, j: int)
    requires 0 <= i < j < |xs| && xs[i] == xs[j]
    ensures multiset(xs)[xs[i]] >= 2
  {
    assert xs == xs[..i] + [xs[i]] + xs[i + 1..j] + [xs[j]] + xs[j + 1..];
  }

  /** Being duplicate-free depends only on the multiset of elements. */
  lemma NoDuplicatesPermutation<T>(xs: seq<T>, ys: seq<T>)
    requires multiset(xs) == multiset(ys) && NoDuplicates(ys)
    ensures NoDuplicates(xs)
  {
    forall i, j | 0 <= i < j < |xs|
      ensures xs[i] != xs[j]
    {
      NoDuplicatesCount(ys, xs[i]);
      if xs[i] == xs[j] {
        TwiceCounted(xs, i, j);
      }
    }
  }

  /** A prefix of a duplicate-free sequence is duplicate-free. */
  lemma NoDuplicatesPrefix<T>(xs: seq<T>, n: int)
    requires NoDuplicates(xs) && 0 <= n <= |xs|
    ensures NoDuplicates(xs[..n])
  {
  }

  /** Cutting a list that starts with `init` keeps the start of `init`. */
  lemma PrefixOfPrefix<T>(full: seq<T>, init: seq<T>, m: nat, n: nat)
    requires |init| <= |full| && full[..|init|] == init
    requires n <= |init| && n <= m <= |full|
    ensures full[..m][..n] == init[..n]
  {
    assert full[..m][..n] == full[..n] == full[..|init|][..n];
  }

  /** A subset is no larger than its superset. */
  lemma {:induction false} SubsetCard<T>(a: set<T>, b: set<T>)
    requires a <= b
    ensures |a| <= |b|
    decreases a
  {
    if a != {} {
      var x :| x in a;
      SubsetCard(a - {x}, b - {x});
    }
  }
}
