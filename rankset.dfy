/** An item set (RankSet): the fixed list of items being ranked and the
    summaries of the rankings started on it, kept in a dictionary by public
    token and in a list sorted by the ListRankings key. */
module RankSet {
  import opened RankRanking

  /** The summary kept in the module's index of item sets. */
  datatype SetSlim = SetSlim(hash: string, name: string)

  /** Ordinal order on titles: lexicographic by character code, a prefix
      coming first. */
  predicate TitleLe(a: string, b: string): (r: bool)
    ensures a <= b ==> r
  {
    if a == [] then true
    else if b == [] then false
    else if a[0] != b[0] then a[0] < b[0]
    else TitleLe(a[1..], b[1..])
  }

  lemma {:induction false} TitleLeTotal(a: string, b: string)
    ensures TitleLe(a, b) || TitleLe(b, a)
  {
    if a != [] && b != [] && a[0] == b[0] {
      TitleLeTotal(a[1..], b[1..]);
    }
  }

  lemma {:induction false} TitleLeAntisymmetric(a: string, b: string)
    requires TitleLe(a, b) && TitleLe(b, a)
    ensures a == b
  {
    if a != [] && b != [] {
      TitleLeAntisymmetric(a[1..], b[1..]);
      assert a == [a[0]] + a[1..] && b == [b[0]] + b[1..];
    }
  }

  lemma {:induction false} TitleLeTransitive(a: string, b: string, c: string)
    requires TitleLe(a, b) && TitleLe(b, c)
    ensures TitleLe(a, c)
  {
    if a != [] && b != [] && c != [] && a[0] == b[0] && b[0] == c[0] {
      TitleLeTransitive(a[1..], b[1..], c[1..]);
    }
  }

  /** The sort key of ListRankings, `By(r => !r.Finished).ThenBy(r => r.Title)`. */
  datatype ListKey = ListKey(notFinished: bool, title: string)

  /** Ascending order of the key: on the first component false comes before
      true, so finished rankings come before unfinished ones; ties are broken
      by title. */
  predicate KeyLe(a: ListKey, b: ListKey): (r: bool)
    ensures a == b ==> r
  {
    (!a.notFinished && b.notFinished) || (a.notFinished == b.notFinished && TitleLe(a.title, b.title))
  }

  lemma KeyLeTotal(a: ListKey, b: ListKey)
    ensures KeyLe(a, b) || KeyLe(b, a)
  {
    TitleLeTotal(a.title, b.title);
  }

  lemma KeyLeAntisymmetric(a: ListKey, b: ListKey)
    requires KeyLe(a, b) && KeyLe(b, a)
    ensures a == b
  {
    TitleLeAntisymmetric(a.title, b.title);
  }

  lemma KeyLeTransitive(a: ListKey, b: ListKey, c: ListKey)
    requires KeyLe(a, b) && KeyLe(b, c)
    ensures KeyLe(a, c)
  {
    if a.notFinished == b.notFinished && b.notFinished == c.notFinished {
      TitleLeTransitive(a.title, b.title, c.title);
    }
  }

  /** A finished ranking is listed strictly before an unfinished one, whatever
      their titles. */
  lemma FinishedListedFirst(a: ListKey, b: ListKey)
    requires !a.notFinished && b.notFinished
    ensures KeyLe(a, b) && !KeyLe(b, a)
  {
  }

  /** Between two rankings with the same finished flag the title decides. */
  lemma SameFlagListedByTitle(a: ListKey, b: ListKey)
    requires a.notFinished == b.notFinished
    ensures KeyLe(a, b) <==> TitleLe(a.title, b.title)
  {
  }

  /** The key a summary is listed by. */
  function KeyOf(s: RankingSlim): (k: ListKey)
    reads s
    ensures k.notFinished <==> !s.finished
    ensures k.title == s.title
  {
    ListKey(!s.finished, s.title)
  }

  /** The list is in ListRankings order. */
  ghost predicate Sorted(list: seq<RankingSlim>)
    reads set s | s in list
  {
    forall i, j :: 0 <= i < j < |list| ==> KeyLe(KeyOf(list[i]), KeyOf(list[j]))
  }

  /** Where the linear scan stops, the new summary is not greater than any
      later element of a sorted list. */
  lemma StopIsBelowRest(list: seq<RankingSlim>, slim: RankingSlim, pos: nat)
    requires Sorted(list) && pos < |list|
    requires !KeyLe(KeyOf(list[pos]), KeyOf(slim))
    ensures forall j :: pos <= j < |list| ==> KeyLe(KeyOf(slim), KeyOf(list[j]))
  {
    KeyLeTotal(KeyOf(list[pos]), KeyOf(slim));
    forall j | pos < j < |list|
      ensures KeyLe(KeyOf(slim), KeyOf(list[j]))
    {
      KeyLeTransitive(KeyOf(slim), KeyOf(list[pos]), KeyOf(list[j]));
    }
  }

  /** Inserting at the scan's stopping point keeps a sorted list sorted. */
  lemma InsertKeepsSorted(list: seq<RankingSlim>, slim: RankingSlim, pos: nat)
    requires Sorted(list) && pos <= |list|
    requires forall k :: 0 <= k < pos ==> KeyLe(KeyOf(list[k]), KeyOf(slim))
    requires pos < |list| ==> !KeyLe(KeyOf(list[pos]), KeyOf(slim))
    ensures Sorted(list[..pos] + [slim] + list[pos..])
  {
    if pos < |list| {
      StopIsBelowRest(list, slim, pos);
    }
    var t := list[..pos] + [slim] + list[pos..];
    forall i, j | 0 <= i < j < |t|
      ensures KeyLe(KeyOf(t[i]), KeyOf(t[j]))
    {
      if j < pos {
        assert t[i] == list[i] && t[j] == list[j];
      } else if i > pos {
        assert t[i] == list[i - 1] && t[j] == list[j - 1];
      } else if i == pos {
        assert t[i] == slim && t[j] == list[j - 1];
      } else if j == pos {
        assert t[i] == list[i] && t[j] == slim;
      } else {
        assert t[i] == list[i] && t[j] == list[j - 1];
      }
    }
  }

  class RankSet {
    var hash: string
    var name: string
    var items: seq<string>
    var dicRankings: map<string, RankingSlim>
    var listRankings: seq<RankingSlim>

    /** Every summary in the dictionary is filed under its own public token
        and is the very object the sorted list holds. */
    ghost predicate Registered()
      reads this, dicRankings.Values
    {
      forall t :: t in dicRankings ==> dicRankings[t].publicToken == t && dicRankings[t] in listRankings
    }

    /** A new item set has no rankings yet. */
    constructor (hash: string, name: string, items: seq<string>)
      ensures this.hash == hash && this.name == name && this.items == items
      ensures dicRankings == map[] && listRankings == []
      ensures Registered()
    {
      this.hash := hash;
      this.name := name;
      this.items := items;
      dicRankings := map[];
      listRankings := [];
    }

    /** The summary copies the hash and the name. */
    function ToSlim(): (s: SetSlim)
      reads this
      ensures s.hash == hash && s.name == name
    {
      SetSlim(hash, name)
    }

    /** Registers a ranking's summary under its public token and inserts the
        same object into the sorted list. */
    method AddRanking(slim: RankingSlim)
      modifies this`dicRankings, this`listRankings
      ensures dicRankings == old(dicRankings)[slim.publicToken := slim]
      ensures multiset(listRankings) == multiset(old(listRankings)) + multiset{slim}
      ensures Sorted(old(listRankings)) ==> Sorted(listRankings)
      ensures old(Registered()) ==> Registered()
    {
      dicRankings := dicRankings[slim.publicToken := slim];
      InsertSorted(slim);
      forall t | t in old(listRankings) ensures t in listRankings {
        assert t in multiset(old(listRankings));
      }
      assert slim in multiset(listRankings);
    }

    /** ListSorted.Add: inserts after every element whose key is not greater. */
    method InsertSorted(slim: RankingSlim)
      modifies this`listRankings
      ensures exists pos :: 0 <= pos <= |old(listRankings)| &&
                listRankings == old(listRankings)[..pos] + [slim] + old(listRankings)[pos..]
      ensures multiset(listRankings) == multiset(old(listRankings)) + multiset{slim}
      ensures Sorted(old(listRankings)) ==> Sorted(listRankings)
    {
      var list := listRankings;
      var pos := 0;
      while pos < |list| && KeyLe(KeyOf(list[pos]), KeyOf(slim))
        invariant 0 <= pos <= |list|
        invariant forall k :: 0 <= k < pos ==> KeyLe(KeyOf(list[k]), KeyOf(slim))
      {
        pos := pos + 1;
      }
      listRankings := list[..pos] + [slim] + list[pos..];
      assert list == list[..pos] + list[pos..];
      if Sorted(list) {
        InsertKeepsSorted(list, slim, pos);
      }
    }
  }
}
