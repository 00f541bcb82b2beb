# Rank — a verified model of the ranking engine

Rank is a small web application. It ranks a list of items by pairwise
questions: "which of these two is more …?". The user types the items once;
the lines become an *item set*, which is stored under a hash of its text.
A *ranking* started on a set keeps a list of answered comparisons
`(Less, More)` between item indices. After every answer the application
closes the list transitively. It then sorts the items with a comparator
built from that list. The first pair the comparator cannot decide becomes
the next question. A ranking is *finished* when the sort meets no undecided
pair.

This project models that engine in Dafny and proves what it guarantees.
Each module follows one part of the program.

- `Comparisons` (comparisons.dfy) covers `RankComparison` and the partial
  order a ranking's comparison list stands for. It gives the closure
  update of one vote as a specification function, `Extend`. It proves that
  the update keeps a closed list closed, keeps a strict order strict when
  the vote is consistent, and adds exactly the least closure.
- `RankRanking` (ranking.dfy) has the classes `Ranking` (`RankRanking`) and
  `RankingSlim` (`RankRankingSlim`). The vote's nested append loops are
  methods here, proved against `Extend`.
- `RankSet` (rankset.dfy) has the class `RankSet`: its items, its summaries
  by public token, and the list of summaries in `ListRankings` order.
  Insertion into the sorted list is a method proved to keep the list
  sorted.
- `ItemList` (items.dfy) covers the normalisation of the typed items in
  the "create" branch. It proves the shape of every item and that
  normalising is idempotent.
- `Int32Text` (int32text.dfy) covers the decimal text of the indices:
  `int.ToString` on the page and `int.TryParse` on the posted vote,
  including the 32-bit range.
- `RankModule` (rank_module.dfy) has `attemptRanking`, with the
  comparator's latch of the first undecided pair, the "rank" vote branch,
  and creation of a ranking in the "start" branch.

Some things the code does are worth knowing, as the model follows them:

- The vote branch rejects only a wrong private token, and a vote whose
  integers do not parse or whose winner is neither index. It does not
  check that the pair is the question currently open. It also does not
  check whether the ranking is finished, or whether the vote contradicts
  a recorded relation. So `Rank` has no such preconditions, and its
  contract states strict-order preservation only under the conditions
  that make it true. `ReversedVoteBreaksOrder` shows that a stale vote
  with the reverse answer puts an item below itself.
  `AnswerOpenQuestion` shows that answering only the offered question
  keeps the order strict.
- The comparison collection is a list, not a set. The closure update
  appends without looking for duplicates (`ReplayAddsOnlyDuplicates`).
- `RankComparison` as written has no constructor with two arguments and no
  value equality, yet the module builds it with two arguments and looks it
  up with `List.Contains`. The model treats a comparison as a value, which
  is what the lookups evidently mean.
- The `ListRankings` key is `(!Finished, Title)` in ascending order. Since
  `false` sorts before `true`, finished rankings are listed before
  unfinished ones (`FinishedListedFirst`).

## Model

| member | source | states |
|---|---|---|
| Comparisons.StrictOrderIsAsymmetric | Src/RankModule.cs:148-151 | a transitively closed, irreflexive list never holds a pair together with its reverse, so the comparator's two lookups never both succeed |
| Comparisons.Lesses | Src/RankModule.cs:229 | `l` is in the result exactly when (l, x) is recorded |
| Comparisons.Mores | Src/RankModule.cs:231 | `m` is in the result exactly when (x, m) is recorded |
| Comparisons.AncestorLesses | Src/RankModule.cs:229-230 | exactly `less` and everything recorded below it, with `less` last |
| Comparisons.DescendantMores | Src/RankModule.cs:231-232 | exactly `more` and everything recorded above it, with `more` last |
| Comparisons.Row | Src/RankModule.cs:234-235 | one pass of the inner loop appends one comparison per descendant |
| Comparisons.RowAt | Src/RankModule.cs:234-235 | the k-th comparison of a pass joins the ancestor to the k-th descendant, so the row keeps loop order |
| Comparisons.RowMembers | Src/RankModule.cs:234-235 | one pass of the inner loop appends exactly the pairs (a, d) for d in the descendants |
| Comparisons.PairsLength | Src/RankModule.cs:233-235 | the nested loops append exactly (number of ancestors) × (number of descendants) comparisons |
| Comparisons.PairsMembers | Src/RankModule.cs:233-235 | the nested loops append exactly the pairs (a, d) with a an ancestor and d a descendant |
| Comparisons.Extend | Src/RankModule.cs:228-235 | the old list is a proper prefix of the new one, so nothing is removed; a fact is in the new list exactly when it was in the old one or joins an ancestor of `less` to a descendant of `more` |
| Comparisons.ExtendKeepsClosed | Src/RankModule.cs:228-235 | for any new comparison, a transitively closed list stays closed after the update |
| Comparisons.ExtendKeepsStrictOrder | Src/RankModule.cs:228-235 | a strict partial order stays strict, with no (x, x) and no pair beside its reverse, when the new pair relates two different items not already ordered the other way |
| Comparisons.ExtendIsLeastClosure | Src/RankModule.cs:228-235 | every closed list containing the old facts and the new pair contains every fact of the updated list: the update adds the least closure |
| Comparisons.ReplayAddsOnlyDuplicates | Src/RankModule.cs:233-235 | recording a pair a closed list already holds adds no new fact but still lengthens the list |
| Comparisons.ReversedVoteBreaksOrder | Src/RankModule.cs:223-235 | recording the reverse of a recorded fact (a, b) puts (a, a) into the list, so the order is no longer irreflexive |
| RankRanking.RankingSlim.constructor | Src/RankRanking.cs:6-11 | the summary holds the given token, title and finished flag |
| RankRanking.Ranking.constructor | Src/RankModule.cs:197 | a new ranking holds the given set hash, tokens, title and question, is not finished, has empty comparison and ignore lists, and is transitively closed |
| RankRanking.Ranking.ToSlim | Src/RankRanking.cs:33 | a new summary object with the ranking's finished flag, public token and title |
| RankRanking.Ranking.AddComparison | Src/RankModule.cs:228-235 | only the comparison list changes, and it becomes `Extend` of the old list; a closed list stays closed, and a strict order stays strict under the conditions of `ExtendKeepsStrictOrder` |
| RankRanking.Ranking.AppendPairs | Src/RankModule.cs:233-235 | the outer loop appends every row of pairs of the ancestors with the descendants, in loop order |
| RankRanking.Ranking.AppendRow | Src/RankModule.cs:234-235 | the inner loop appends (a, d) for every descendant d, in order |
| RankSet.TitleLe | Src/RankSet.cs:23 | a title comes before every title it is a prefix of, itself included |
| RankSet.TitleLeAntisymmetric | Src/RankSet.cs:23 | two titles each ordered before the other are equal |
| RankSet.TitleLeTotal | Src/RankSet.cs:23 | any two titles are ordered one way or the other |
| RankSet.TitleLeTransitive | Src/RankSet.cs:23 | title order is transitive |
| RankSet.KeyLe | Src/RankSet.cs:23 | the `ListRankings` key order is reflexive |
| RankSet.KeyLeAntisymmetric | Src/RankSet.cs:23 | two keys each ordered before the other are equal |
| RankSet.KeyOf | Src/RankSet.cs:23 | a summary is listed by the key (not finished, title) taken from its own fields |
| RankSet.KeyLeTotal | Src/RankSet.cs:23 | the `ListRankings` key order is total |
| RankSet.KeyLeTransitive | Src/RankSet.cs:23 | the `ListRankings` key order is transitive |
| RankSet.FinishedListedFirst | Src/RankSet.cs:23 | a finished ranking sorts strictly before an unfinished one, whatever the titles |
| RankSet.SameFlagListedByTitle | Src/RankSet.cs:23 | between rankings with the same finished flag, the key order is the title order |
| RankSet.StopIsBelowRest | Src/RankSet.cs:23 | where the insertion scan stops in a sorted list, the new summary is not above any later element |
| RankSet.InsertKeepsSorted | Src/RankSet.cs:23 | inserting at the scan's stopping point keeps a sorted list sorted |
| RankSet.RankSet.constructor | Src/RankSet.cs:18-23 | a new set holds the given hash, name and items, with an empty dictionary and list, and is registered |
| RankSet.RankSet.ToSlim | Src/RankSet.cs:25 | the summary carries the set's hash and name |
| RankSet.RankSet.AddRanking | Src/RankModule.cs:199-200 | the summary is filed under its public token and the same object is inserted into the list, which gains just that element, stays sorted if it was, and stays registered |
| RankSet.RankSet.InsertSorted | Src/RankSet.cs:23 | the list gains the summary at one position, keeping the other elements in order, and stays sorted if it was |
| ItemList.RemoveCarriageReturns | Src/RankModule.cs:168 | no carriage return is left; the result is shorter by the number of carriage returns; text without one is unchanged |
| ItemList.CountBounds | Src/RankModule.cs:168 | a character occurs at most as often as the text is long, and no time exactly when it is absent |
| ItemList.RemoveCarriageReturnsKeeps | Src/RankModule.cs:168 | every character other than a carriage return is kept |
| ItemList.TrimStart | Src/RankModule.cs:168 | a suffix of the text that does not start with white space |
| ItemList.WhiteSpaceInAscii | Src/RankModule.cs:168 | among ASCII characters exactly U+0009 to U+000D and the space count as white space for `Trim()`, and no letter or digit does |
| ItemList.TrimStartDropsWhiteSpace | Src/RankModule.cs:168 | only white space is dropped from the front |
| ItemList.TrimEnd | Src/RankModule.cs:168 | a prefix of the text that does not end with white space |
| ItemList.TrimEndDropsWhiteSpace | Src/RankModule.cs:168 | only white space is dropped from the end |
| ItemList.Trim | Src/RankModule.cs:168 | neither end of the result is white space, and an already trimmed text is unchanged |
| ItemList.TrimKeepsOut | Src/RankModule.cs:168 | trimming adds no character |
| ItemList.TrimKeepsFirst | Src/RankModule.cs:168 | a first character that is not white space stays first |
| ItemList.TrimKeepsLast | Src/RankModule.cs:168 | a last character that is not white space stays last |
| ItemList.SplitLines | Src/RankModule.cs:168 | one piece more than there are line feeds, no piece holds a line feed, and joining the pieces with line feeds gives back the text |
| ItemList.SplitLinesKeepsOut | Src/RankModule.cs:168 | a character the text does not hold is in no piece |
| ItemList.JoinLinesSnoc | Src/RankModule.cs:169 | joining a list with one more line appends a line feed and that line |
| ItemList.JoinLinesOuter | Src/RankModule.cs:169 | `JoinString("\n")` gives a text that begins with the first line and ends with the last line |
| ItemList.SplitLinesCons | Src/RankModule.cs:168 | a line without a line feed, a line feed and more text split into that line followed by the pieces of the rest |
| ItemList.SplitJoin | Src/RankModule.cs:168-169 | splitting undoes joining for a non-empty list of lines without line feeds |
| ItemList.NoLineFeedSplitsToItself | Src/RankModule.cs:168 | a text without a line feed splits into itself alone |
| ItemList.NormaliseItems | Src/RankModule.cs:168 | at least one item, and every item holds no carriage return and no line feed and neither starts nor ends with white space |
| ItemList.NormaliseItemsCount | Src/RankModule.cs:168 | there is one item more than the cleaned, trimmed text has line feeds |
| ItemList.TrimEach | Src/RankModule.cs:168 | as many lines as given, each the trimmed original and so trimmed itself |
| ItemList.TrimEachKeepsOut | Src/RankModule.cs:168 | a character no line holds is in no trimmed line |
| ItemList.OuterLinesOfTrimmed | Src/RankModule.cs:168 | when a trimmed text holds a line feed, its first line starts and its last line ends with a character that is not white space |
| ItemList.JoinLinesEnds | Src/RankModule.cs:169 | joined lines start with the first line's first character and end with the last line's last character |
| ItemList.JoinedTrimmedLinesTrimmed | Src/RankModule.cs:168-169 | trimming lines whose outer ends are not white space and joining them gives a trimmed text |
| ItemList.TrimmedLinesJoinTrimmed | Src/RankModule.cs:168-169 | for a trimmed text with a line feed, joining its trimmed lines gives a trimmed text |
| ItemList.NormalisedJoinIsClean | Src/RankModule.cs:168-169 | the joined normalised items, the text that is hashed, hold no carriage return and are trimmed |
| ItemList.NoCarriageReturnInJoin | Src/RankModule.cs:169 | lines without carriage returns join into a text without one |
| ItemList.CleanTextNormalisesToLines | Src/RankModule.cs:168 | a trimmed text without carriage returns whose lines are trimmed normalises to its lines |
| ItemList.CleanItemsNormaliseToThemselves | Src/RankModule.cs:168-169 | clean items whose joined text is clean normalise back to themselves |
| ItemList.NormaliseIsIdempotent | Src/RankModule.cs:168-169 | normalising the joined normalised items gives the same items, so resubmitting a set's text yields the same set |
| Int32Text.StripNumberWhite | Src/RankModule.cs:223 | neither end of the result is number white space, the result holds only characters of the input, and a stripped text is unchanged |
| Int32Text.StripNumberWhiteDropsOnlyWhite | Src/RankModule.cs:223 | the stripped text is a slice of the input with only number white space before and after it, so `TryParse` sees exactly the text between that white space |
| Int32Text.DigitsValueBounds | Src/RankModule.cs:223 | the value of n decimal digits is below 10^n, and at least 10^(n-1) when the first digit is not zero |
| Int32Text.Digit | Src/RankModule.cs:112-113 | the decimal digit of the given value |
| Int32Text.NatDigits | Src/RankModule.cs:112-113 | a non-empty string of decimal digits whose value is the number, with no leading zero unless the number is zero, where it is "0" |
| Int32Text.Int32ToString | Src/RankModule.cs:112-116 | `ToString()` renders a non-negative number as its shortest decimal digits, and a negative one as a minus sign followed by the shortest digits of its magnitude |
| Int32Text.ParseInt32 | Src/RankModule.cs:223 | a parsed value is a 32-bit integer, and a text with no digit does not parse |
| Int32Text.ParseInt32OfToString | Src/RankModule.cs:223 | the text `ToString` renders for a 32-bit index parses back to that index |
| RankModule.Candidates | Src/RankModule.cs:143 | exactly the indices in 0 .. count-1 that are not ignored, in strictly ascending order |
| RankModule.Cmp | Src/RankModule.cs:144-158 | for two different items, +1 exactly when (i1, i2) is recorded, whether or not (i2, i1) is too; -1 exactly when only (i2, i1) is recorded; 0 exactly for one item or an undecided pair |
| RankModule.CmpAntisymmetric | Src/RankModule.cs:146-151 | on a strict partial order, swapping the arguments negates the comparator |
| RankModule.CmpTransitive | Src/RankModule.cs:148-149 | on a strict partial order, decided answers of the comparator are transitive |
| RankModule.Compare | Src/RankModule.cs:144-158 | the comparator's value, and a latch set to (i1, i2) exactly on the first undecided pair of two items and left alone otherwise |
| RankModule.ChainInsert | Src/RankModule.cs:144-159 | inserting an item between a neighbour above it and a neighbour below it keeps every element above its successor |
| RankModule.ChainOrdered | Src/RankModule.cs:144-159 | in such a chain over a closed list, every element is recorded above every later element |
| RankModule.ChainDecides | Src/RankModule.cs:144-160 | a chain over a closed list that holds all candidates orders each earlier element above each later one and decides every pair of candidates |
| RankModule.InsertOne | Src/RankModule.cs:144-159 | the item is inserted at one position; a latched pair joins the item to an element it is undecided against; without a latch its left neighbour is above it and its right neighbour below |
| RankModule.DistinctInsert | Src/RankModule.cs:143-159 | inserting a new item keeps the elements distinct and adds just that item |
| RankModule.SortCandidates | Src/RankModule.cs:144-159 | a permutation of the candidates with no repeats; a latched pair is two different candidates with no recorded relation either way; with no latch every element is above its successor |
| RankModule.AttemptRanking | Src/RankModule.cs:139-161 | `ranked` is a permutation of the non-ignored indices; `ix1` and `ix2` are both -1 or both set; a set pair is two different candidates unrelated both ways; a fully decided list latches nothing; on a closed list no latch means every pair is decided and `ranked` lists winners before losers |
| RankModule.ParseVote | Src/RankModule.cs:223-226 | accepted exactly when all three integers parse and `more` is one of the two indices; the comparison then has `more` as winner and the other index as loser |
| RankModule.OfferedVoteKeepsOrder | Src/RankModule.cs:223-226 | a vote sent back for an offered pair parses to a comparison between the two, with the chosen winner, that keeps a strict order strict |
| RankModule.Rank | Src/RankModule.cs:206-250 | a wrong private token or a bad vote changes nothing; an accepted vote makes the comparisons `Extend` of the old list; finished is set on the ranking and on its listed summary exactly when every pair is then decided, and is never cleared; closure is kept and strictness is kept for a consistent vote |
| RankModule.RecordVote | Src/RankModule.cs:228-248 | the comparisons become `Extend` of the old list; `done` holds exactly when every candidate pair is decided; both finished flags become their old value or `done`; the summary's token and title are unchanged |
| RankModule.MarkFinished | Src/RankModule.cs:238-246 | the ranking and its summary are finished, and the summary keeps its token, title and registration |
| RankModule.NoOpenPair | Src/RankModule.cs:237-238 | after a vote, attemptRanking latches no pair exactly when every two candidates are ordered |
| RankModule.OpenQuestion | Src/RankModule.cs:97 | the question on the ranking page is two different candidates ordered neither way, and there is none exactly when every two candidates are ordered |
| RankModule.PostOfferedVote | Src/RankModule.cs:108-116 | the vote the page's form posts for the offered pair is recorded, lengthens the list, keeps the comparisons a strict partial order and never clears finished |
| RankModule.AnswerOpenQuestion | Src/RankModule.cs:97-116 | with no open question the page offers no vote and nothing changes; otherwise answering the offered question records it, keeps the comparisons a strict partial order and never clears finished |
| RankModule.Start | Src/RankModule.cs:197-200 | a new, unfinished ranking with no comparisons whose summary is filed under its new public token and inserted into the list; earlier entries are unchanged, and sortedness and registration are kept |

## Left out

- HTTP routing, page and form assembly and redirects (Src/RankModule.cs:39-137) are presentation. Of them, only the offered pair and its rendering into the form are used by `AnswerOpenQuestion`.
- The "complete"/"incomplete" CSS class of each listed item (line 117) is display only.
- File I/O is not modelled: JSON serialisation, `File.Exists` checks, `Init` and the path helpers. The "does not exist" answers of the branches are not modelled either: the model starts from a ranking and a set already loaded.
- MD5 hashing of the joined items (line 169) is a foreign library. The set's hash is an input, and `NormaliseIsIdempotent` states what the hash depends on.
- The registry of item sets kept by the "create" branch (lines 169-180) is not modelled. Only its item normalisation is in the core.
- Random token generation and the retry loop (lines 191-196) are nondeterministic. `Start` takes the tokens as inputs and requires the public token to be unused, which is what the loop ensures.
- `lock (this)` is concurrency. Each branch is modelled as one atomic call.
- The framework's `OrderBy` routine is not visible. `SortCandidates` is a stable insertion sort. The properties proved about `AttemptRanking` do not depend on which undecided pair the sort meets first, but the exact pair it latches may differ from the original's.
- `ListSorted` and `CustomComparer` come from a library. `InsertSorted` inserts after every element that is not greater, and titles are compared ordinally; the culture-aware string comparison is not modelled.
- The vote path sets `Finished` on a summary that sits in the sorted list, by aliasing, and does not re-sort the list. So no contract claims the list stays sorted after a vote. `Rank` only proves that the summary in the dictionary is still the object in the list.
- `Rank`: its `requires` that the ranking's public token is in the set's dictionary is stronger than the source on a vote that does not finish the ranking, which never reads `DicRankings` (only line 243 does). It holds for every ranking the code creates, because the "start" branch files each new summary under its token and saves the set (lines 199 and 202), and `Start` ensures the same. Its `requires Valid()` is the transitive closure that every ranking built by this code has.
- `ParseInt32` covers optional leading and trailing white space, one sign, digits and the 32-bit range. It does not model culture-specific signs, trailing NUL characters, or a missing form field.
- `IsWhiteSpace` lists the characters for which `Char.IsWhiteSpace` is true. This is the set `Trim()` removes in current .NET; older frameworks used a slightly different set.
- Editing of `Ignore` is not done anywhere in the source. The ignore list is read by `attemptRanking` and otherwise stays as created.
- Src/Program.cs (process start-up) is not part of this model.
