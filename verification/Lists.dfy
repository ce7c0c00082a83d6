/** The order in which lists name things. */
module Lists {
  import opened OrderedMaps

  /** `a` stands before the first place of `b` in the list. */
  ghost predicate Precedes<T(!new)>(xs: seq<T>, a: T, b: T) {
    exists q :: 0 <= q < |xs| && xs[q] == b && b !in xs[..q] && a in xs[..q]
  }

  lemma PrecedesStill<T(!new)>(xs: seq<T>, ys: seq<T>, a: T, b: T)
    ensures Precedes(xs, a, b) ==> Precedes(xs + ys, a, b)
  {
    if Precedes(xs, a, b) {
      var q :| 0 <= q < |xs| && xs[q] == b && b !in xs[..q] && a in xs[..q];
      assert (xs + ys)[..q] == xs[..q];
    }
  }

  lemma PrecedesNew<T(!new)>(xs: seq<T>, a: T, b: T)
    requires a in xs && b !in xs
    ensures Precedes(xs + [b], a, b)
  {
    assert (xs + [b])[..|xs|] == xs;
  }

  /** The list names its elements in the order of their first places in another list, each once. */
  ghost predicate InOrderOf<T(!new)>(some: seq<T>, all: seq<T>) {
    forall i, j :: 0 <= i < j < |some| ==> Precedes(all, some[i], some[j])
  }

  lemma InOrderStill<T(!new)>(some: seq<T>, all: seq<T>, more: seq<T>)
    requires InOrderOf(some, all)
    ensures InOrderOf(some, all + more)
  {
    forall i, j | 0 <= i < j < |some|
      ensures Precedes(all + more, some[i], some[j])
    {
      PrecedesStill(all, more, some[i], some[j]);
    }
  }

  lemma InOrderNew<T(!new)>(some: seq<T>, all: seq<T>, x: T)
    requires InOrderOf(some, all) && (forall y :: y in some ==> y in all) && x !in all
    ensures InOrderOf(some + [x], all + [x])
  {
    InOrderStill(some, all, [x]);
    forall i | 0 <= i < |some|
      ensures Precedes(all + [x], some[i], x)
    {
      assert some[i] in some;
      PrecedesNew(all, some[i], x);
    }
  }

  function FirstPlace<T(==)>(xs: seq<T>, x: T): (p: nat)
    requires x in xs
    ensures p < |xs| && xs[p] == x && x !in xs[..p]
  {
    if xs[0] == x then 0
    else
      var p := FirstPlace(xs[1..], x);
      assert xs[..p + 1] == [xs[0]] + xs[1..][..p];
      p + 1
  }

  lemma PrecedesAfter<T(!new)>(all: seq<T>, more: seq<T>, a: T, b: T)
    requires b !in all && b in more && (a in all || Precedes(more, a, b))
    ensures Precedes(all + more, a, b)
  {
    var q := FirstPlace(more, b);
    if Precedes(more, a, b) {
      q :| 0 <= q < |more| && more[q] == b && b !in more[..q] && a in more[..q];
    }
    assert (all + more)[..|all| + q] == all + more[..q];
    assert (all + more)[|all| + q] == b;
  }

  lemma InOrderJoin<T(!new)>(a: seq<T>, b: seq<T>, x: seq<T>, y: seq<T>)
    requires InOrderOf(a, x) && InOrderOf(b, y)
    requires (forall u :: u in a ==> u in x) && (forall v :: v in b ==> v in y && v !in x)
    ensures InOrderOf(a + b, x + y)
  {
    var some := a + b;
    forall i, j | 0 <= i < j < |some|
      ensures Precedes(x + y, some[i], some[j])
    {
      if j < |a| {
        PrecedesStill(x, y, a[i], a[j]);
      } else {
        assert some[j] in b;
        assert i < |a| ==> some[i] in a;
        PrecedesAfter(x, y, some[i], some[j]);
      }
    }
  }

  lemma InOrderThrough<T(!new)>(some: seq<T>, mid: seq<T>, all: seq<T>)
    requires InOrderOf(some, mid) && InOrderOf(mid, all)
    ensures InOrderOf(some, all)
  {
    forall i, j | 0 <= i < j < |some|
      ensures Precedes(all, some[i], some[j])
    {
      var q :| 0 <= q < |mid| && mid[q] == some[j] && some[j] !in mid[..q] && some[i] in mid[..q];
      var p :| 0 <= p < q && mid[p] == some[i];
      assert Precedes(all, mid[p], mid[q]);
    }
  }

  lemma DistinctIsInOrder<T(!new)>(xs: seq<T>)
    requires Distinct(xs)
    ensures InOrderOf(xs, xs)
  {
    forall i, j | 0 <= i < j < |xs|
      ensures Precedes(xs, xs[i], xs[j])
    {
      assert xs[..j][i] == xs[i];
    }
  }
}
