/** The ranking engine of the web module: the driver that orders the items
    and picks the next question (attemptRanking), the vote that records an
    answer and closes it transitively, and the start of a new ranking. */
module RankModule {
  import opened Comparisons
  import opened RankRanking
  import opened RankSet
  import opened Int32Text

  // ---------------------------------------------------------------------
  // attemptRanking
  // ---------------------------------------------------------------------

  /** `Enumerable.Range(0, n).Except(ignore)`: the indices that are ranked, in
      ascending order. */
  function Candidates(n: nat, ignore: seq<int>): (r: seq<int>)
    ensures forall i :: i in r <==> 0 <= i < n && i !in ignore
    ensures forall p, q :: 0 <= p < q < |r| ==> r[p] < r[q]
  {
    if n == 0 then []
    else
      var below := Candidates(n - 1, ignore);
      assert forall k :: 0 <= k < |below| ==> below[k] in below;
      below + (if n - 1 in ignore then [] else [n - 1])
  }

  /** The value of the comparator passed to OrderBy: positive when i1 is
      recorded below i2 (so i1 sorts after i2), negative for the reverse, and
      zero for one item or an undecided pair. */
  function Cmp(cs: seq<Comparison>, i1: int, i2: int): (r: int)
    ensures r == 1 ==> i1 != i2 && Knows(cs, i1, i2)
    ensures i1 != i2 && Knows(cs, i1, i2) ==> r == 1
    ensures r == -1 ==> i1 != i2 && Knows(cs, i2, i1)
    ensures i1 != i2 && !Knows(cs, i1, i2) && Knows(cs, i2, i1) ==> r == -1
    ensures r == 0 <==> i1 == i2 || (!Knows(cs, i1, i2) && !Knows(cs, i2, i1))
    ensures -1 <= r <= 1
  {
    if i1 == i2 then 0
    else if Knows(cs, i1, i2) then 1
    else if Knows(cs, i2, i1) then -1
    else 0
  }

  /** On a strict partial order the comparator is antisymmetric. */
  lemma CmpAntisymmetric(cs: seq<Comparison>, i1: int, i2: int)
    requires StrictOrder(cs)
    ensures Cmp(cs, i1, i2) == -Cmp(cs, i2, i1)
  {
    StrictOrderIsAsymmetric(cs, i1, i2);
  }

  /** On a strict partial order the comparator's decided answers are
      transitive. */
  lemma CmpTransitive(cs: seq<Comparison>, a: int, b: int, c: int)
    requires StrictOrder(cs)
    requires Cmp(cs, a, b) == 1 && Cmp(cs, b, c) == 1
    ensures Cmp(cs, a, c) == 1
  {
    assert Knows(cs, a, b) && Knows(cs, b, c);
    assert Knows(cs, a, c);
    assert a != c;
  }

  /** The comparator lambda together with the two locals it captures: the
      first call that meets an undecided pair of two items latches that pair
      into (ix1, ix2); every other call leaves them as they are. */
  method Compare(cs: seq<Comparison>, i1: int, i2: int, ix1: int, ix2: int)
    returns (r: int, newIx1: int, newIx2: int)
    ensures r == Cmp(cs, i1, i2)
    ensures ix1 == -1 && r == 0 && i1 != i2 ==> newIx1 == i1 && newIx2 == i2
    ensures !(ix1 == -1 && r == 0 && i1 != i2) ==> newIx1 == ix1 && newIx2 == ix2
  {
    newIx1, newIx2 := ix1, ix2;
    if i1 == i2 {
      return 0, newIx1, newIx2;
    }
    if Comparison(i1, i2) in cs {
      return 1, newIx1, newIx2;
    }
    if Comparison(i2, i1) in cs {
      return -1, newIx1, newIx2;
    }
    if ix1 == -1 {
      newIx1, newIx2 := i1, i2;
    }
    r := 0;
  }

  /** Every element of s is recorded above the element after it. */
  ghost predicate Chain(cs: seq<Comparison>, s: seq<int>)
  {
    forall k :: 0 <= k < |s| - 1 ==> Knows(cs, s[k + 1], s[k])
  }

  /** Every two different candidates are ordered one way or the other. */
  ghost predicate Decided(cs: seq<Comparison>, candidates: seq<int>)
  {
    forall a, b :: a in candidates && b in candidates && a != b ==> Knows(cs, a, b) || Knows(cs, b, a)
  }

  predicate Distinct(s: seq<int>)
  {
    forall p, q :: 0 <= p < q < |s| ==> s[p] != s[q]
  }

  /** Inserting x between a neighbour recorded above it and a neighbour
      recorded below it keeps a chain a chain. */
  lemma ChainInsert(cs: seq<Comparison>, s: seq<int>, x: int, pos: nat)
    requires pos <= |s| && Chain(cs, s)
    requires pos > 0 ==> Knows(cs, x, s[pos - 1])
    requires pos < |s| ==> Knows(cs, s[pos], x)
    ensures Chain(cs, s[..pos] + [x] + s[pos..])
  {
    var t := s[..pos] + [x] + s[pos..];
    forall k | 0 <= k < |t| - 1
      ensures Knows(cs, t[k + 1], t[k])
    {
      if k + 1 < pos {
        assert t[k + 1] == s[k + 1] && t[k] == s[k];
      } else if k + 1 == pos {
        assert t[k + 1] == x && t[k] == s[pos - 1];
      } else if k == pos {
        assert t[k + 1] == s[pos] && t[k] == x;
      } else {
        assert t[k + 1] == s[k] && t[k] == s[k - 1];
      }
    }
  }

  /** In a chain over a closed list every element is recorded above every
      later element. */
  lemma {:induction false} ChainOrdered(cs: seq<Comparison>, s: seq<int>, i: nat, j: nat)
    requires Closed(cs) && Chain(cs, s)
    requires i < j < |s|
    ensures Knows(cs, s[j], s[i])
    decreases j - i
  {
    if j > i + 1 {
      ChainOrdered(cs, s, i, j - 1);
      assert Knows(cs, s[j], s[j - 1]);
    }
  }

  /** A chain over a closed list that holds every candidate decides them all. */
  lemma ChainDecides(cs: seq<Comparison>, s: seq<int>, candidates: seq<int>)
    requires Closed(cs) && Chain(cs, s)
    requires multiset(s) == multiset(candidates)
    ensures forall i, j :: 0 <= i < j < |s| ==> Knows(cs, s[j], s[i])
    ensures Decided(cs, candidates)
  {
    forall i, j | 0 <= i < j < |s|
      ensures Knows(cs, s[j], s[i])
    {
      ChainOrdered(cs, s, i, j);
    }
    forall a, b | a in candidates && b in candidates && a != b
      ensures Knows(cs, a, b) || Knows(cs, b, a)
    {
      assert a in multiset(s) && b in multiset(s);
      var p :| 0 <= p < |s| && s[p] == a;
      var q :| 0 <= q < |s| && s[q] == b;
      if p < q {
        assert Knows(cs, s[q], s[p]);
      } else {
        assert Knows(cs, s[p], s[q]);
      }
    }
  }

  /** One step of the stable insertion sort that stands for OrderBy: x is
      compared with the sorted prefix from its right end and moved left past
      every element the comparator puts after it. */
  method InsertOne(cs: seq<Comparison>, ranked: seq<int>, x: int, ix1: int, ix2: int)
    returns (pos: nat, r: seq<int>, newIx1: int, newIx2: int)
    requires x >= 0 && x !in ranked
    requires forall y :: y in ranked ==> y >= 0
    ensures pos <= |ranked| && r == ranked[..pos] + [x] + ranked[pos..]
    ensures ix1 != -1 ==> newIx1 == ix1 && newIx2 == ix2
    ensures newIx1 == -1 ==> newIx2 == ix2
    ensures ix1 == -1 && newIx1 != -1 ==>
              newIx1 in ranked && newIx2 == x && !Knows(cs, newIx1, x) && !Knows(cs, x, newIx1)
    ensures newIx1 == -1 ==> (pos > 0 ==> Knows(cs, x, ranked[pos - 1])) &&
                             (pos < |ranked| ==> Knows(cs, ranked[pos], x))
  {
    pos := |ranked|;
    newIx1, newIx2 := ix1, ix2;
    var done := false;
    while pos > 0 && !done
      invariant 0 <= pos <= |ranked|
      invariant ix1 != -1 ==> newIx1 == ix1 && newIx2 == ix2
      invariant newIx1 == -1 ==> newIx2 == ix2
      invariant ix1 == -1 && newIx1 != -1 ==>
                  newIx1 in ranked && newIx2 == x && !Knows(cs, newIx1, x) && !Knows(cs, x, newIx1)
      invariant newIx1 == -1 && pos < |ranked| ==> Knows(cs, ranked[pos], x)
      invariant newIx1 == -1 && done ==> pos > 0 && Knows(cs, x, ranked[pos - 1])
      decreases pos, !done
    {
      assert ranked[pos - 1] in ranked;
      var c;
      c, newIx1, newIx2 := Compare(cs, ranked[pos - 1], x, newIx1, newIx2);
      if c > 0 {
        pos := pos - 1;
      } else {
        done := true;
      }
    }
    r := ranked[..pos] + [x] + ranked[pos..];
  }

  /** Inserting an element that is not in a list of distinct elements keeps
      them distinct, and adds just that element. */
  lemma DistinctInsert(s: seq<int>, x: int, pos: nat)
    requires pos <= |s| && Distinct(s) && x !in s
    ensures Distinct(s[..pos] + [x] + s[pos..])
    ensures multiset(s[..pos] + [x] + s[pos..]) == multiset(s) + multiset{x}
    ensures forall y :: y in s[..pos] + [x] + s[pos..] <==> y in s || y == x
  {
    assert s == s[..pos] + s[pos..];
    var t := s[..pos] + [x] + s[pos..];
    forall p, q | 0 <= p < q < |t|
      ensures t[p] != t[q]
    {
      var sp := if p < pos then p else p - 1;
      var sq := if q <= pos then q else q - 1;
      if p == pos {
        assert t[q] == s[q - 1];
      } else if q == pos {
        assert t[p] == s[p];
      } else {
        assert t[p] == s[sp] && t[q] == s[sq] && sp < sq;
      }
    }
  }

  /** The OrderBy call of attemptRanking: the indexes, one at a time, inserted
      into the sorted prefix with the latching comparator. */
  method SortCandidates(cs: seq<Comparison>, indexes: seq<int>)
    returns (ix1: int, ix2: int, ranked: seq<int>)
    requires Distinct(indexes)
    requires forall y :: y in indexes ==> y >= 0
    ensures multiset(ranked) == multiset(indexes)
    ensures Distinct(ranked)
    ensures (ix1 == -1) == (ix2 == -1)
    ensures ix1 != -1 ==>
              ix1 in indexes && ix2 in indexes && ix1 != ix2 && !Knows(cs, ix1, ix2) && !Knows(cs, ix2, ix1)
    ensures ix1 == -1 ==> Chain(cs, ranked)
  {
    ix1, ix2 := -1, -1;
    ranked := [];
    for k := 0 to |indexes|
      invariant multiset(ranked) == multiset(indexes[..k])
      invariant Distinct(ranked)
      invariant forall y :: y in ranked ==> y in indexes
      invariant (ix1 == -1) == (ix2 == -1)
      invariant ix1 != -1 ==>
                  ix1 in indexes && ix2 in indexes && ix1 != ix2 &&
                  !Knows(cs, ix1, ix2) && !Knows(cs, ix2, ix1)
      invariant ix1 == -1 ==> Chain(cs, ranked)
    {
      var x := indexes[k];
      assert x in indexes;
      assert x !in ranked by {
        assert forall p :: 0 <= p < k ==> indexes[p] != x;
        assert x !in multiset(indexes[..k]);
        assert x !in multiset(ranked);
      }
      var pos, inserted, a, b := InsertOne(cs, ranked, x, ix1, ix2);
      if a == -1 {
        ChainInsert(cs, ranked, x, pos);
      }
      DistinctInsert(ranked, x, pos);
      assert indexes[..k + 1] == indexes[..k] + [x];
      ranked, ix1, ix2 := inserted, a, b;
    }
    assert indexes[..|indexes|] == indexes;
  }

  /** attemptRanking: the candidates sorted by the comparator, and the first
      undecided pair the sort met (-1, -1 when it met none). */
  method AttemptRanking(itemCount: nat, ignore: seq<int>, comparisons: seq<Comparison>)
    returns (ix1: int, ix2: int, ranked: seq<int>)
    ensures multiset(ranked) == multiset(Candidates(itemCount, ignore))
    ensures forall i :: i in ranked <==> 0 <= i < itemCount && i !in ignore
    ensures Distinct(ranked)
    ensures (ix1 == -1) == (ix2 == -1)
    ensures ix1 != -1 ==>
              0 <= ix1 < itemCount && ix1 !in ignore && 0 <= ix2 < itemCount && ix2 !in ignore &&
              ix1 != ix2 && !Knows(comparisons, ix1, ix2) && !Knows(comparisons, ix2, ix1)
    ensures Decided(comparisons, Candidates(itemCount, ignore)) ==> ix1 == -1
    ensures Closed(comparisons) && ix1 == -1 ==> Decided(comparisons, Candidates(itemCount, ignore))
    ensures Closed(comparisons) && ix1 == -1 ==>
              forall i, j :: 0 <= i < j < |ranked| ==> Knows(comparisons, ranked[j], ranked[i])
  {
    var indexes := Candidates(itemCount, ignore);
    ix1, ix2, ranked := SortCandidates(comparisons, indexes);
    if ix1 == -1 && Closed(comparisons) {
      ChainDecides(comparisons, ranked, indexes);
    }
    forall i ensures i in ranked <==> i in indexes {
      assert i in ranked <==> i in multiset(ranked);
    }
  }

  /** The test the "rank" branch applies after recording a vote: attemptRanking
      finds no open pair exactly when, on a closed list, every two candidates
      are ordered. */
  method NoOpenPair(itemCount: nat, ignore: seq<int>, comparisons: seq<Comparison>) returns (done: bool)
    requires Closed(comparisons)
    ensures done == Decided(comparisons, Candidates(itemCount, ignore))
  {
    var ix1, ix2, ranked := AttemptRanking(itemCount, ignore, comparisons);
    done := ix1 == -1;
  }

  // ---------------------------------------------------------------------
  // processPost, "rank"
  // ---------------------------------------------------------------------

  /** The parsing step of the "rank" branch of processPost: the three posted
      integers, and the comparison they ask to record, with `more` the winner
      and the other index the loser. None when an integer does not parse or
      `more` is neither index. */
  function ParseVote(ix1Text: string, ix2Text: string, moreText: string): (r: Option<Comparison>)
    ensures r.Some? <==>
              ParseInt32(ix1Text).Some? && ParseInt32(ix2Text).Some? && ParseInt32(moreText).Some? &&
              (ParseInt32(moreText) == ParseInt32(ix1Text) || ParseInt32(moreText) == ParseInt32(ix2Text))
    ensures r.Some? ==>
              r.value.more == ParseInt32(moreText).value &&
              {r.value.less, r.value.more} == {ParseInt32(ix1Text).value, ParseInt32(ix2Text).value}
  {
    match (ParseInt32(ix1Text), ParseInt32(ix2Text), ParseInt32(moreText))
    case (Some(ix1), Some(ix2), Some(more)) =>
      if more != ix1 && more != ix2 then None
      else Some(Comparison(if more == ix1 then ix2 else ix1, if more == ix1 then ix1 else ix2))
    case _ => None
  }

  /** A vote cast on the form for an offered pair parses back to a comparison
      between the two different items, with the chosen one as winner, that a
      strict partial order can take without losing strictness. */
  lemma OfferedVoteKeepsOrder(cs: seq<Comparison>, ix1: int, ix2: int, winner: int)
    requires IsInt32(ix1) && IsInt32(ix2)
    requires ix1 != ix2 && !Knows(cs, ix1, ix2) && !Knows(cs, ix2, ix1)
    requires winner == ix1 || winner == ix2
    ensures var v := ParseVote(Int32ToString(ix1), Int32ToString(ix2), Int32ToString(winner));
            v.Some? && v.value.more == winner && v.value.less == (if winner == ix1 then ix2 else ix1) &&
            (StrictOrder(cs) ==> StrictOrder(Extend(cs, v.value)))
  {
    ParseInt32OfToString(ix1);
    ParseInt32OfToString(ix2);
    ParseInt32OfToString(winner);
    var v := ParseVote(Int32ToString(ix1), Int32ToString(ix2), Int32ToString(winner));
    if StrictOrder(cs) {
      ExtendKeepsStrictOrder(cs, v.value);
    }
  }

  /** What the "rank" branch answers. */
  datatype VoteOutcome =
    | CannotVote            // "You cannot vote in this ranking."
    | InvalidIntegers       // "Invalid integers."
    | Recorded(finished: bool)
    | NoQuestion            // the ranking page offers no vote: every pair is decided

  /** The "rank" branch, for a ranking and its item set already loaded: check
      the private token, parse the vote, close it into the comparisons, rerun
      attemptRanking and set Finished on the ranking and on its summary when no
      question is left. Neither rejection changes anything. */
  method Rank(ranking: Ranking, itemSet: RankSet, privateToken: string,
              ix1Text: string, ix2Text: string, moreText: string)
    returns (outcome: VoteOutcome)
    requires ranking.Valid()
    requires ranking.publicToken in itemSet.dicRankings
    modifies ranking`comparisons, ranking`finished, itemSet.dicRankings[ranking.publicToken]
    ensures ranking.Valid()
    ensures old(ranking.finished) ==> ranking.finished
    ensures var slim := itemSet.dicRankings[ranking.publicToken];
            slim.publicToken == old(slim.publicToken) && slim.title == old(slim.title)
    ensures old(itemSet.Registered()) ==> itemSet.Registered()
    ensures privateToken != ranking.privateToken ==>
              outcome == CannotVote && ranking.comparisons == old(ranking.comparisons) &&
              ranking.finished == old(ranking.finished) &&
              itemSet.dicRankings[ranking.publicToken].finished == old(itemSet.dicRankings[ranking.publicToken].finished)
    ensures privateToken == ranking.privateToken && ParseVote(ix1Text, ix2Text, moreText).None? ==>
              outcome == InvalidIntegers && ranking.comparisons == old(ranking.comparisons) &&
              ranking.finished == old(ranking.finished) &&
              itemSet.dicRankings[ranking.publicToken].finished == old(itemSet.dicRankings[ranking.publicToken].finished)
    ensures privateToken == ranking.privateToken && ParseVote(ix1Text, ix2Text, moreText).Some? ==>
              var c := ParseVote(ix1Text, ix2Text, moreText).value;
              var done := Decided(ranking.comparisons, Candidates(|itemSet.items|, ranking.ignore));
              ranking.comparisons == Extend(old(ranking.comparisons), c) &&
              outcome == Recorded(done) &&
              ranking.finished == (old(ranking.finished) || done) &&
              itemSet.dicRankings[ranking.publicToken].finished == (old(itemSet.dicRankings[ranking.publicToken].finished) || done)
    ensures privateToken == ranking.privateToken && ParseVote(ix1Text, ix2Text, moreText).Some? &&
            old(StrictOrder(ranking.comparisons)) &&
            ParseVote(ix1Text, ix2Text, moreText).value.less != ParseVote(ix1Text, ix2Text, moreText).value.more &&
            !Knows(old(ranking.comparisons), ParseVote(ix1Text, ix2Text, moreText).value.more,
                   ParseVote(ix1Text, ix2Text, moreText).value.less) ==>
              StrictOrder(ranking.comparisons)
  {
    if privateToken != ranking.privateToken {
      return CannotVote;
    }
    var vote := ParseVote(ix1Text, ix2Text, moreText);
    if vote.None? {
      return InvalidIntegers;
    }
    var done := RecordVote(ranking, itemSet, vote.value);
    outcome := Recorded(done);
  }

  /** The rest of the "rank" branch of processPost: record an accepted
      comparison, rerun attemptRanking and mark the ranking and its summary
      finished when it finds no open pair. The summary's token and title stay
      as they are. */
  method RecordVote(ranking: Ranking, itemSet: RankSet, c: Comparison) returns (done: bool)
    requires ranking.Valid()
    requires ranking.publicToken in itemSet.dicRankings
    modifies ranking`comparisons, ranking`finished, itemSet.dicRankings[ranking.publicToken]
    ensures ranking.Valid()
    ensures ranking.comparisons == Extend(old(ranking.comparisons), c)
    ensures done == Decided(ranking.comparisons, Candidates(|itemSet.items|, ranking.ignore))
    ensures ranking.finished == (old(ranking.finished) || done)
    ensures var slim := itemSet.dicRankings[ranking.publicToken];
            slim.finished == (old(slim.finished) || done) &&
            slim.publicToken == old(slim.publicToken) && slim.title == old(slim.title)
    ensures old(StrictOrder(ranking.comparisons)) && c.less != c.more &&
            !Knows(old(ranking.comparisons), c.more, c.less) ==>
              StrictOrder(ranking.comparisons)
    ensures old(itemSet.Registered()) ==> itemSet.Registered()
  {
    ranking.AddComparison(c);
    done := NoOpenPair(|itemSet.items|, ranking.ignore, ranking.comparisons);
    if done {
      MarkFinished(ranking, itemSet);
    }
  }

  /** The end of the "rank" branch, once attemptRanking finds no open pair:
      the ranking and, through the same object the sorted list holds, its
      summary are marked finished; nothing else changes. */
  method MarkFinished(ranking: Ranking, itemSet: RankSet)
    requires ranking.publicToken in itemSet.dicRankings
    modifies ranking`finished, itemSet.dicRankings[ranking.publicToken]
    ensures ranking.finished
    ensures var slim := itemSet.dicRankings[ranking.publicToken];
            slim.finished && slim.publicToken == old(slim.publicToken) && slim.title == old(slim.title)
    ensures old(itemSet.Registered()) ==> itemSet.Registered()
  {
    ranking.finished := true;
    var slim := itemSet.dicRankings[ranking.publicToken];
    slim.finished := true;
  }

  /** The vote the ranking page posts for an offered pair: the form carries
      the ranking's own private token and the rendered indices, so the vote is
      recorded, the list grows, and the order stays strict. */
  method PostOfferedVote(ranking: Ranking, itemSet: RankSet, ix1: int, ix2: int, more: int)
    returns (outcome: VoteOutcome)
    requires ranking.Valid() && StrictOrder(ranking.comparisons)
    requires ranking.publicToken in itemSet.dicRankings
    requires IsInt32(ix1) && IsInt32(ix2)
    requires ix1 != ix2 && !Knows(ranking.comparisons, ix1, ix2) && !Knows(ranking.comparisons, ix2, ix1)
    requires more == ix1 || more == ix2
    modifies ranking`comparisons, ranking`finished, itemSet.dicRankings[ranking.publicToken]
    ensures ranking.Valid() && StrictOrder(ranking.comparisons)
    ensures old(ranking.finished) ==> ranking.finished
    ensures outcome.Recorded? && old(ranking.comparisons) < ranking.comparisons
  {
    OfferedVoteKeepsOrder(ranking.comparisons, ix1, ix2, more);
    ghost var before := ranking.comparisons;
    ghost var vote := ParseVote(Int32ToString(ix1), Int32ToString(ix2), Int32ToString(more)).value;
    outcome := Rank(ranking, itemSet, ranking.privateToken, Int32ToString(ix1), Int32ToString(ix2), Int32ToString(more));
    assert ranking.comparisons == Extend(before, vote);
  }

  /** The question the ranking page shows: the pair attemptRanking latched,
      two different candidates not ordered either way, or (-1, -1) exactly
      when, on a closed list, every two candidates are ordered. */
  method OpenQuestion(itemCount: nat, ignore: seq<int>, comparisons: seq<Comparison>)
    returns (ix1: int, ix2: int)
    requires Closed(comparisons)
    ensures ix1 == -1 <==> Decided(comparisons, Candidates(itemCount, ignore))
    ensures ix1 != -1 ==>
              0 <= ix1 < itemCount && 0 <= ix2 < itemCount &&
              ix1 != ix2 && !Knows(comparisons, ix1, ix2) && !Knows(comparisons, ix2, ix1)
  {
    var ranked;
    ix1, ix2, ranked := AttemptRanking(itemCount, ignore, comparisons);
  }

  /** The ranking page that Handle builds shows the first open question, and
      the user answers it: voting only on offered questions keeps the
      comparisons a strict partial order. When no question is open the page
      offers no vote and nothing changes. */
  method AnswerOpenQuestion(ranking: Ranking, itemSet: RankSet, firstWins: bool) returns (outcome: VoteOutcome)
    requires ranking.Valid() && StrictOrder(ranking.comparisons)
    requires ranking.publicToken in itemSet.dicRankings
    requires |itemSet.items| <= MaxInt32 + 1
    modifies ranking`comparisons, ranking`finished, itemSet.dicRankings[ranking.publicToken]
    ensures ranking.Valid() && StrictOrder(ranking.comparisons)
    ensures old(ranking.finished) ==> ranking.finished
    ensures outcome == NoQuestion <==> Decided(old(ranking.comparisons), Candidates(|itemSet.items|, ranking.ignore))
    ensures outcome == NoQuestion ==> ranking.comparisons == old(ranking.comparisons) && ranking.finished == old(ranking.finished)
    ensures outcome != NoQuestion ==> outcome.Recorded? && old(ranking.comparisons) < ranking.comparisons
  {
    var ix1, ix2 := OpenQuestion(|itemSet.items|, ranking.ignore, ranking.comparisons);
    if ix1 == -1 {
      return NoQuestion;
    }
    var more := if firstWins then ix1 else ix2;
    outcome := PostOfferedVote(ranking, itemSet, ix1, ix2, more);
  }

  // ---------------------------------------------------------------------
  // processPost, "start"
  // ---------------------------------------------------------------------

  /** The "start" branch of processPost: a new, unfinished ranking with no
      comparisons, whose summary is registered under its public token and
      inserted into the set's sorted list. The token is one the retry loop
      found unused. */
  method Start(itemSet: RankSet, publicToken: string, privateToken: string, title: string, question: string)
    returns (ranking: Ranking)
    requires publicToken !in itemSet.dicRankings
    modifies itemSet`dicRankings, itemSet`listRankings
    ensures fresh(ranking) && ranking.Valid()
    ensures ranking.setHash == itemSet.hash && ranking.publicToken == publicToken
    ensures ranking.privateToken == privateToken && ranking.title == title && ranking.question == question
    ensures !ranking.finished && ranking.comparisons == [] && ranking.ignore == []
    ensures itemSet.dicRankings.Keys == old(itemSet.dicRankings.Keys) + {publicToken}
    ensures forall t :: t in old(itemSet.dicRankings) ==> itemSet.dicRankings[t] == old(itemSet.dicRankings[t])
    ensures var slim := itemSet.dicRankings[publicToken];
            fresh(slim) && slim.publicToken == publicToken && slim.title == title && !slim.finished &&
            multiset(itemSet.listRankings) == multiset(old(itemSet.listRankings)) + multiset{slim}
    ensures Sorted(old(itemSet.listRankings)) ==> Sorted(itemSet.listRankings)
    ensures old(itemSet.Registered()) ==> itemSet.Registered()
  {
    ranking := new Ranking(itemSet.hash, publicToken, privateToken, title, question);
    var slim := ranking.ToSlim();
    itemSet.AddRanking(slim);
  }
}
