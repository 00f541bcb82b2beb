/** One ranking session (RankRanking) and the summary of it that its item set
    keeps (RankRankingSlim). */
module RankRanking {
  import opened Comparisons

  /** The summary an item set keeps of each of its rankings. It is an object:
      the vote path sets `finished` on it in place, and the set's dictionary
      and sorted list hold the same object. */
  class RankingSlim {
    var publicToken: string
    var title: string
    var finished: bool

    constructor (publicToken: string, title: string, finished: bool)
      ensures this.publicToken == publicToken && this.title == title
      ensures this.finished == finished
    {
      this.publicToken := publicToken;
      this.title := title;
      this.finished := finished;
    }
  }

  /** A ranking session: the comparisons answered so far, the ignored items and
      whether the ranking is finished. */
  class Ranking {
    var setHash: string
    var publicToken: string
    var privateToken: string
    var title: string
    var question: string
    var finished: bool
    var comparisons: seq<Comparison>
    var ignore: seq<int>

    /** The comparison list is kept transitively closed. */
    ghost predicate Valid()
      reads this
    {
      Closed(comparisons)
    }

    /** A new ranking: not finished, no comparisons and nothing ignored. */
    constructor (setHash: string, publicToken: string, privateToken: string, title: string, question: string)
      ensures Valid()
      ensures this.setHash == setHash && this.publicToken == publicToken
      ensures this.privateToken == privateToken
      ensures this.title == title && this.question == question
      ensures !finished && comparisons == [] && ignore == []
    {
      this.setHash := setHash;
      this.publicToken := publicToken;
      this.privateToken := privateToken;
      this.title := title;
      this.question := question;
      finished := false;
      comparisons := [];
      ignore := [];
    }

    /** A fresh summary carrying this ranking's finished flag, public token and
        title, and nothing else. */
    method ToSlim() returns (s: RankingSlim)
      ensures fresh(s)
      ensures s.finished == finished && s.publicToken == publicToken && s.title == title
    {
      s := new RankingSlim(publicToken, title, finished);
    }

    /** Records c and closes it over the old ancestors of c.less and the old
        descendants of c.more, appending every pair without checking for
        duplicates. Only the comparison list changes. */
    method AddComparison(c: Comparison)
      modifies this`comparisons
      ensures comparisons == Extend(old(comparisons), c)
      ensures old(Valid()) ==> Valid()
      ensures old(StrictOrder(comparisons)) && c.less != c.more && !Knows(old(comparisons), c.more, c.less) ==>
                StrictOrder(comparisons)
    {
      var ancestorLesses := AncestorLesses(comparisons, c.less);
      var descendantMores := DescendantMores(comparisons, c.more);
      AppendPairs(ancestorLesses, descendantMores);
      if old(Closed(comparisons)) {
        ExtendKeepsClosed(old(comparisons), c);
      }
      if old(StrictOrder(comparisons)) && c.less != c.more && !Knows(old(comparisons), c.more, c.less) {
        ExtendKeepsStrictOrder(old(comparisons), c);
      }
    }

    /** The nested loops of the closure update: append (a, d) for every a in
        lows and every d in ds. */
    method AppendPairs(lows: seq<int>, ds: seq<int>)
      modifies this`comparisons
      ensures comparisons == old(comparisons) + Pairs(lows, ds)
    {
      ghost var before := comparisons;
      for i := 0 to |lows|
        invariant comparisons == before + Pairs(lows[..i], ds)
      {
        AppendRow(lows[i], ds);
        PairsStep(lows, ds, i);
      }
      assert lows[..|lows|] == lows;
    }

    /** The inner loop of the closure update: appends (a, d) for every d. */
    method AppendRow(a: int, ds: seq<int>)
      modifies this`comparisons
      ensures comparisons == old(comparisons) + Row(a, ds)
    {
      ghost var before := comparisons;
      for j := 0 to |ds|
        invariant comparisons == before + Row(a, ds[..j])
      {
        RowStep(a, ds, j);
        comparisons := comparisons + [Comparison(a, ds[j])];
      }
      assert ds[..|ds|] == ds;
    }
  }
}
