/** The partial-order store of one ranking: the list of directed comparisons
    between item indices that a ranking records, and the incremental
    transitive-closure update that one vote triggers. */
module Comparisons {

  /** A RankComparison: item `less` ranks below item `more`. The pair is
      directional: Comparison(a, b) and Comparison(b, a) are different facts. */
  datatype Comparison = Comparison(less: int, more: int)

  /** The fact "less ranks below more" is recorded, possibly several times. */
  predicate Knows(cs: seq<Comparison>, less: int, more: int)
  {
    Comparison(less, more) in cs
  }

  /** Every chain of two recorded facts is shortcut by a recorded fact. */
  ghost predicate Closed(cs: seq<Comparison>)
  {
    forall a, b, c :: Knows(cs, a, b) && Knows(cs, b, c) ==> Knows(cs, a, c)
  }

  /** No item is recorded as ranking below itself. */
  ghost predicate Irreflexive(cs: seq<Comparison>)
  {
    forall a :: !Knows(cs, a, a)
  }

  /** The comparisons form a strict partial order. */
  ghost predicate StrictOrder(cs: seq<Comparison>)
  {
    Closed(cs) && Irreflexive(cs)
  }

  /** A strict partial order never holds a pair together with its reverse. */
  lemma StrictOrderIsAsymmetric(cs: seq<Comparison>, a: int, b: int)
    requires StrictOrder(cs)
    ensures !(Knows(cs, a, b) && Knows(cs, b, a))
  {
  }

  /** `Where(c => c.More == x).Select(c => c.Less)`: the items recorded below x,
      in list order. */
  function Lesses(cs: seq<Comparison>, x: int): (r: seq<int>)
    ensures forall l :: l in r <==> Knows(cs, l, x)
    ensures |r| <= |cs|
  {
    if cs == [] then []
    else
      assert cs == [cs[0]] + cs[1..];
      (if cs[0].more == x then [cs[0].less] else []) + Lesses(cs[1..], x)
  }

  /** `Where(c => c.Less == x).Select(c => c.More)`: the items recorded above x,
      in list order. */
  function Mores(cs: seq<Comparison>, x: int): (r: seq<int>)
    ensures forall m :: m in r <==> Knows(cs, x, m)
    ensures |r| <= |cs|
  {
    if cs == [] then []
    else
      assert cs == [cs[0]] + cs[1..];
      (if cs[0].less == x then [cs[0].more] else []) + Mores(cs[1..], x)
  }

  /** `ancestorLesses`: everything below `less`, followed by `less` itself. */
  function AncestorLesses(cs: seq<Comparison>, less: int): (r: seq<int>)
    ensures forall a :: a in r <==> a == less || Knows(cs, a, less)
    ensures |r| >= 1 && r[|r| - 1] == less
  {
    Lesses(cs, less) + [less]
  }

  /** `descendantMores`: everything above `more`, followed by `more` itself. */
  function DescendantMores(cs: seq<Comparison>, more: int): (r: seq<int>)
    ensures forall d :: d in r <==> d == more || Knows(cs, more, d)
    ensures |r| >= 1 && r[|r| - 1] == more
  {
    Mores(cs, more) + [more]
  }

  /** The comparisons appended by one pass of the inner loop: (a, d) for each
      d in ds, in order. */
  function Row(a: int, ds: seq<int>): (r: seq<Comparison>)
    ensures |r| == |ds|
  {
    if ds == [] then [] else Row(a, ds[..|ds| - 1]) + [Comparison(a, ds[|ds| - 1])]
  }

  /** The comparisons appended by the nested loops: (a, d) for each a in lows and
      each d in ds, row by row. */
  function Pairs(lows: seq<int>, ds: seq<int>): (r: seq<Comparison>)
  {
    if lows == [] then [] else Pairs(lows[..|lows| - 1], ds) + Row(lows[|lows| - 1], ds)
  }

  /** The k-th pair of a row joins a to the k-th element of ds. */
  lemma {:induction false} RowAt(a: int, ds: seq<int>, k: nat)
    requires k < |ds|
    ensures Row(a, ds)[k] == Comparison(a, ds[k])
  {
    if k < |ds| - 1 {
      RowAt(a, ds[..|ds| - 1], k);
    }
  }

  /** The nested loops append one row of |ds| pairs for each element of lows. */
  lemma {:induction false} PairsLength(lows: seq<int>, ds: seq<int>)
    ensures |Pairs(lows, ds)| == |lows| * |ds|
  {
    if lows != [] {
      var init := lows[..|lows| - 1];
      PairsLength(init, ds);
      assert |lows| * |ds| == |init| * |ds| + |ds|;
    }
  }

  /** One row holds exactly the pairs (a, d) with d in ds. */
  lemma {:induction false} RowMembers(a: int, ds: seq<int>)
    ensures forall x :: x in Row(a, ds) <==> x.less == a && x.more in ds
  {
    if ds != [] {
      var init := ds[..|ds| - 1];
      assert ds == init + [ds[|ds| - 1]];
      RowMembers(a, init);
    }
  }

  /** The nested loops append exactly the pairs (a, d) with a in lows and d in ds. */
  lemma {:induction false} PairsMembers(lows: seq<int>, ds: seq<int>)
    ensures forall x :: x in Pairs(lows, ds) <==> x.less in lows && x.more in ds
  {
    if lows != [] {
      var init := lows[..|lows| - 1];
      assert lows == init + [lows[|lows| - 1]];
      PairsMembers(init, ds);
      RowMembers(lows[|lows| - 1], ds);
    }
  }

  /** Extending the inner loop's range by one appends one comparison. */
  lemma RowStep(a: int, ds: seq<int>, j: nat)
    requires j < |ds|
    ensures Row(a, ds[..j + 1]) == Row(a, ds[..j]) + [Comparison(a, ds[j])]
  {
    assert ds[..j + 1][..j] == ds[..j];
  }

  /** Extending the outer loop's range by one appends one row. */
  lemma PairsStep(lows: seq<int>, ds: seq<int>, i: nat)
    requires i < |lows|
    ensures Pairs(lows[..i + 1], ds) == Pairs(lows[..i], ds) + Row(lows[i], ds)
  {
    assert lows[..i + 1][..i] == lows[..i];
  }

  /** The comparison list after recording c: the old list, followed by every
      ancestor of c.less paired with every descendant of c.more, both taken
      from the old list. Nothing is removed and nothing is de-duplicated. */
  function Extend(cs: seq<Comparison>, c: Comparison): (r: seq<Comparison>)
    ensures cs < r
    ensures forall x :: x in r <==>
      x in cs ||
      ((x.less == c.less || Knows(cs, x.less, c.less)) &&
       (x.more == c.more || Knows(cs, c.more, x.more)))
  {
    var ancestors := AncestorLesses(cs, c.less);
    var descendants := DescendantMores(cs, c.more);
    PairsMembers(ancestors, descendants);
    assert Comparison(c.less, c.more) in Pairs(ancestors, descendants);
    cs + Pairs(ancestors, descendants)
  }

  /** The update keeps a closed list closed, whatever the new comparison is. */
  lemma ExtendKeepsClosed(cs: seq<Comparison>, c: Comparison)
    requires Closed(cs)
    ensures Closed(Extend(cs, c))
  {
    var e := Extend(cs, c);
    forall a, b, d | Knows(e, a, b) && Knows(e, b, d)
      ensures Knows(e, a, d)
    {
      assert Comparison(a, b) in e && Comparison(b, d) in e;
      var left := Knows(cs, a, b);
      var right := Knows(cs, b, d);
      if left && right {
        assert Knows(cs, a, d);
      } else if left {
        // (b, d) is new: b is an ancestor of c.less, so a is too
        assert b == c.less || Knows(cs, b, c.less);
        assert a == c.less || Knows(cs, a, c.less);
      } else if right {
        // (a, b) is new: b is a descendant of c.more, so d is too
        assert b == c.more || Knows(cs, c.more, b);
        assert d == c.more || Knows(cs, c.more, d);
      } else {
        assert a == c.less || Knows(cs, a, c.less);
        assert d == c.more || Knows(cs, c.more, d);
      }
    }
  }

  /** Recording a comparison between two different items that the order does
      not already rank the other way round keeps a strict partial order strict:
      no pair ever coexists with its reverse and no (x, x) appears. */
  lemma ExtendKeepsStrictOrder(cs: seq<Comparison>, c: Comparison)
    requires StrictOrder(cs)
    requires c.less != c.more
    requires !Knows(cs, c.more, c.less)
    ensures StrictOrder(Extend(cs, c))
  {
    var e := Extend(cs, c);
    ExtendKeepsClosed(cs, c);
    forall a
      ensures !Knows(e, a, a)
    {
      // a new fact (a, a) would need a below c.less and a above c.more,
      // that is, c.more below c.less
      assert Knows(cs, a, c.less) && Knows(cs, c.more, a) ==> Knows(cs, c.more, c.less);
      assert !((a == c.less || Knows(cs, a, c.less)) && (a == c.more || Knows(cs, c.more, a)));
      assert !Knows(cs, a, a);
    }
  }

  /** On a closed list the update adds exactly the transitive closure of the
      old facts plus c: every list that is closed and contains the old facts
      and c already contains every fact of the updated list. */
  lemma ExtendIsLeastClosure(cs: seq<Comparison>, c: Comparison, other: seq<Comparison>)
    requires Closed(other)
    requires forall x :: x in cs ==> x in other
    requires c in other
    ensures forall x :: x in Extend(cs, c) ==> x in other
  {
    forall x | x in Extend(cs, c)
      ensures x in other
    {
      assert Knows(other, c.less, c.more);
      assert Knows(cs, x.less, c.less) ==> Knows(other, x.less, c.less);
      assert Knows(cs, c.more, x.more) ==> Knows(other, c.more, x.more);
      assert Knows(other, x.less, c.less) ==> Knows(other, x.less, c.more);
      assert Knows(other, c.more, x.more) && Knows(other, x.less, c.more) ==> Knows(other, x.less, x.more);
    }
  }

  /** Recording a comparison that a closed list already holds adds no new fact:
      the list only grows by duplicates. */
  lemma ReplayAddsOnlyDuplicates(cs: seq<Comparison>, c: Comparison)
    requires Closed(cs)
    requires c in cs
    ensures forall x :: x in Extend(cs, c) <==> x in cs
    ensures |Extend(cs, c)| > |cs|
  {
    forall x | x in Extend(cs, c)
      ensures x in cs
    {
      assert Knows(cs, c.less, c.more);
      assert Knows(cs, x.less, c.less) ==> Knows(cs, x.less, c.more);
      assert Knows(cs, c.more, x.more) && Knows(cs, x.less, c.more) ==> Knows(cs, x.less, x.more);
    }
  }

  /** Recording the reverse of a fact the list already holds puts an item below
      itself: the order is no longer strict. */
  lemma ReversedVoteBreaksOrder(cs: seq<Comparison>, a: int, b: int)
    requires Knows(cs, a, b)
    ensures Knows(Extend(cs, Comparison(b, a)), a, a)
    ensures !Irreflexive(Extend(cs, Comparison(b, a)))
  {
    var e := Extend(cs, Comparison(b, a));
    assert Comparison(a, a) in e;
    assert Knows(e, a, a);
  }
}
