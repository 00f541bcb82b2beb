/** Normalisation of the item list typed into the "create" form: carriage
    returns are removed, the text is trimmed and split into lines, and every
    line is trimmed. The normalised lines, joined with line feeds, are what
    the item set's hash is computed from. */
module ItemList {

  /** .NET's Char.IsWhiteSpace: U+0009 to U+000D, U+0085, and the Unicode
      space, line and paragraph separators. */
  predicate IsWhiteSpace(c: char)
  {
    ('\t' <= c <= '\r') || c == ' ' || c == '\U{0085}' || c == '\U{00A0}' || c == '\U{1680}' ||
    ('\U{2000}' <= c <= '\U{200A}') || c == '\U{2028}' || c == '\U{2029}' || c == '\U{202F}' ||
    c == '\U{205F}' || c == '\U{3000}'
  }

  /** Neither end of s is white space. */
  predicate Trimmed(s: string)
  {
    s == [] || (!IsWhiteSpace(s[0]) && !IsWhiteSpace(s[|s| - 1]))
  }

  /** Among ASCII characters exactly the controls U+0009 to U+000D and the
      space are white space; no letter or digit is. */
  lemma WhiteSpaceInAscii(c: char)
    ensures c as int < 0x80 ==> (IsWhiteSpace(c) <==> '\t' <= c <= '\r' || c == ' ')
    ensures IsWhiteSpace(c) ==> !('0' <= c <= '9') && !('A' <= c <= 'Z') && !('a' <= c <= 'z')
  {
  }

  /** The number of occurrences of c in s. */
  function Count(s: string, c: char): (n: nat)
  {
    if s == [] then 0 else (if s[0] == c then 1 else 0) + Count(s[1..], c)
  }

  /** c occurs at most |s| times, and not at all exactly when it is absent. */
  lemma {:induction false} CountBounds(s: string, c: char)
    ensures Count(s, c) <= |s|
    ensures Count(s, c) == 0 <==> c !in s
  {
    if s != [] {
      CountBounds(s[1..], c);
      assert s == [s[0]] + s[1..];
    }
  }

  /** `Replace("\r", "")`. */
  function RemoveCarriageReturns(s: string): (r: string)
    ensures '\r' !in r
    ensures |r| + Count(s, '\r') == |s|
    ensures '\r' !in s ==> r == s
  {
    if s == [] then []
    else
      assert s == [s[0]] + s[1..];
      (if s[0] == '\r' then [] else [s[0]]) + RemoveCarriageReturns(s[1..])
  }

  /** Removing carriage returns keeps every other character. */
  lemma {:induction false} RemoveCarriageReturnsKeeps(s: string, c: char)
    requires c != '\r'
    ensures c in RemoveCarriageReturns(s) <==> c in s
  {
    if s != [] {
      assert s == [s[0]] + s[1..];
      RemoveCarriageReturnsKeeps(s[1..], c);
    }
  }

  /** `TrimStart()`: the longest suffix of s that does not start with white
      space. */
  function TrimStart(s: string): (r: string)
    ensures |r| <= |s| && r == s[|s| - |r|..]
    ensures r == [] || !IsWhiteSpace(r[0])
  {
    if s != [] && IsWhiteSpace(s[0]) then TrimStart(s[1..]) else s
  }

  /** TrimStart drops white space only. */
  lemma {:induction false} TrimStartDropsWhiteSpace(s: string)
    ensures forall k :: 0 <= k < |s| - |TrimStart(s)| ==> IsWhiteSpace(s[k])
  {
    if s != [] && IsWhiteSpace(s[0]) {
      TrimStartDropsWhiteSpace(s[1..]);
      assert forall k :: 1 <= k < |s| ==> s[k] == s[1..][k - 1];
    }
  }

  /** `TrimEnd()`: the longest prefix of s that does not end with white space. */
  function TrimEnd(s: string): (r: string)
    ensures |r| <= |s| && r == s[..|r|]
    ensures r == [] || !IsWhiteSpace(r[|r| - 1])
  {
    if s != [] && IsWhiteSpace(s[|s| - 1]) then TrimEnd(s[..|s| - 1]) else s
  }

  /** TrimEnd drops white space only. */
  lemma {:induction false} TrimEndDropsWhiteSpace(s: string)
    ensures forall k :: |TrimEnd(s)| <= k < |s| ==> IsWhiteSpace(s[k])
  {
    if s != [] && IsWhiteSpace(s[|s| - 1]) {
      TrimEndDropsWhiteSpace(s[..|s| - 1]);
    }
  }

  /** `Trim()`: s without its leading and trailing white space. */
  function Trim(s: string): (r: string)
    ensures Trimmed(r)
    ensures Trimmed(s) ==> r == s
  {
    TrimEnd(TrimStart(s))
  }

  /** Trimming adds no character. */
  lemma TrimKeepsOut(s: string, c: char)
    requires c !in s
    ensures c !in Trim(s)
  {
    var front := TrimStart(s);
    assert forall k :: 0 <= k < |front| ==> front[k] == s[|s| - |front| + k];
    var r := TrimEnd(front);
    assert forall k :: 0 <= k < |r| ==> r[k] == front[k];
  }

  /** Trimming keeps a first character that is not white space. */
  lemma TrimKeepsFirst(s: string)
    requires s != [] && !IsWhiteSpace(s[0])
    ensures Trim(s) != [] && Trim(s)[0] == s[0]
  {
    assert TrimStart(s) == s;
    TrimEndDropsWhiteSpace(s);
  }

  /** Trimming keeps a last character that is not white space. */
  lemma TrimKeepsLast(s: string)
    requires s != [] && !IsWhiteSpace(s[|s| - 1])
    ensures Trim(s) != [] && Trim(s)[|Trim(s)| - 1] == s[|s| - 1]
  {
    var front := TrimStart(s);
    TrimStartDropsWhiteSpace(s);
    assert front != [] && front[|front| - 1] == s[|s| - 1];
    assert TrimEnd(front) == front;
  }

  /** `JoinString("\n")`. */
  function JoinLines(xs: seq<string>): (r: string)
  {
    if xs == [] then "" else if |xs| == 1 then xs[0] else xs[0] + "\n" + JoinLines(xs[1..])
  }

  /** `Split('\n')`: the pieces of s between line feeds; joining them again
      gives back s. */
  function SplitLines(s: string): (r: seq<string>)
    ensures |r| == Count(s, '\n') + 1
    ensures forall k :: 0 <= k < |r| ==> '\n' !in r[k]
    ensures JoinLines(r) == s
  {
    if s == [] then [""]
    else if s[0] == '\n' then [""] + SplitLines(s[1..])
    else
      var rest := SplitLines(s[1..]);
      assert s == [s[0]] + s[1..];
      assert |rest| > 1 ==> JoinLines(rest) == rest[0] + "\n" + JoinLines(rest[1..]);
      [[s[0]] + rest[0]] + rest[1..]
  }

  /** A character that s does not hold is in none of its pieces. */
  lemma {:induction false} SplitLinesKeepsOut(s: string, c: char)
    requires c !in s
    ensures forall k :: 0 <= k < |SplitLines(s)| ==> c !in SplitLines(s)[k]
  {
    if s != [] {
      assert s == [s[0]] + s[1..];
      SplitLinesKeepsOut(s[1..], c);
    }
  }

  /** The line before the last line feed ends just before it. */
  lemma {:induction false} JoinLinesSnoc(xs: seq<string>, y: string)
    requires xs != []
    ensures JoinLines(xs + [y]) == JoinLines(xs) + "\n" + y
  {
    if |xs| > 1 {
      assert (xs + [y])[1..] == xs[1..] + [y];
      JoinLinesSnoc(xs[1..], y);
    }
  }

  /** Splitting a line that holds no line feed, followed by a line feed and
      more text, gives the line and then the pieces of the rest. */
  lemma {:induction false} SplitLinesCons(x: string, rest: string)
    requires '\n' !in x
    ensures SplitLines(x + "\n" + rest) == [x] + SplitLines(rest)
  {
    if x != [] {
      var s := x + "\n" + rest;
      assert s[0] == x[0] && s[1..] == x[1..] + "\n" + rest;
      SplitLinesCons(x[1..], rest);
      assert x == [x[0]] + x[1..];
    } else {
      assert x + "\n" + rest == "\n" + rest;
    }
  }

  /** Splitting undoes joining, as long as no line holds a line feed. */
  lemma {:induction false} SplitJoin(xs: seq<string>)
    requires xs != []
    requires forall k :: 0 <= k < |xs| ==> '\n' !in xs[k]
    ensures SplitLines(JoinLines(xs)) == xs
  {
    if |xs| == 1 {
      NoLineFeedSplitsToItself(xs[0]);
    } else {
      SplitJoin(xs[1..]);
      SplitLinesCons(xs[0], JoinLines(xs[1..]));
    }
  }

  lemma {:induction false} NoLineFeedSplitsToItself(x: string)
    requires '\n' !in x
    ensures SplitLines(x) == [x]
  {
    if x != [] {
      assert x == [x[0]] + x[1..];
      NoLineFeedSplitsToItself(x[1..]);
    }
  }

  /** The "create" branch of processPost: the normalised items of the text
      typed into the form. */
  function NormaliseItems(raw: string): (items: seq<string>)
    ensures |items| >= 1
    ensures forall k :: 0 <= k < |items| ==> '\r' !in items[k] && '\n' !in items[k] && Trimmed(items[k])
  {
    var t := Trim(RemoveCarriageReturns(raw));
    TrimKeepsOut(RemoveCarriageReturns(raw), '\r');
    SplitLinesKeepsOut(t, '\r');
    TrimEachKeepsOut(SplitLines(t), '\r');
    TrimEachKeepsOut(SplitLines(t), '\n');
    TrimEach(SplitLines(t))
  }

  /** There is one item more than the cleaned text has line feeds. */
  lemma NormaliseItemsCount(raw: string)
    ensures |NormaliseItems(raw)| == Count(Trim(RemoveCarriageReturns(raw)), '\n') + 1
  {
    var t := Trim(RemoveCarriageReturns(raw));
    assert NormaliseItems(raw) == TrimEach(SplitLines(t));
  }

  /** `Select(s => s.Trim())`. */
  function TrimEach(xs: seq<string>): (r: seq<string>)
    ensures |r| == |xs|
    ensures forall k :: 0 <= k < |xs| ==> r[k] == Trim(xs[k])
    ensures forall k :: 0 <= k < |r| ==> Trimmed(r[k])
  {
    if xs == [] then [] else [Trim(xs[0])] + TrimEach(xs[1..])
  }

  /** A character that no line holds is in no trimmed line. */
  lemma TrimEachKeepsOut(xs: seq<string>, c: char)
    requires forall k :: 0 <= k < |xs| ==> c !in xs[k]
    ensures forall k :: 0 <= k < |xs| ==> c !in TrimEach(xs)[k]
  {
    forall k | 0 <= k < |xs| ensures c !in TrimEach(xs)[k] {
      TrimKeepsOut(xs[k], c);
    }
  }

  /** When a trimmed text holds a line feed, its first line starts with the
      text's first character and its last line ends with its last one. */
  lemma OuterLinesOfTrimmed(t: string)
    requires Trimmed(t)
    requires |SplitLines(t)| > 1
    ensures var lines := SplitLines(t);
      lines[0] != [] && !IsWhiteSpace(lines[0][0]) &&
      lines[|lines| - 1] != [] && !IsWhiteSpace(lines[|lines| - 1][|lines[|lines| - 1]| - 1])
  {
    var lines := SplitLines(t);
    var n := |lines|;
    assert t == lines[0] + "\n" + JoinLines(lines[1..]);
    assert lines == lines[..n - 1] + [lines[n - 1]];
    JoinLinesSnoc(lines[..n - 1], lines[n - 1]);
  }

  /** Joined lines begin with the first line and end with the last line. */
  lemma {:induction false} JoinLinesOuter(xs: seq<string>)
    requires xs != []
    ensures xs[0] <= JoinLines(xs)
    ensures var j := JoinLines(xs); var last := xs[|xs| - 1];
      |last| <= |j| && j[|j| - |last|..] == last
  {
    if |xs| > 1 {
      JoinLinesOuter(xs[1..]);
      var rest := JoinLines(xs[1..]);
      var j := xs[0] + "\n" + rest;
      assert JoinLines(xs) == j;
      assert j[..|xs[0]|] == xs[0];
      assert j[|j| - |rest|..] == rest;
    }
  }

  /** Joined lines start with the first line's first character and end with
      the last line's last character. */
  lemma JoinLinesEnds(xs: seq<string>)
    requires |xs| > 1
    requires xs[0] != [] && xs[|xs| - 1] != []
    ensures var j := JoinLines(xs);
      j != [] && j[0] == xs[0][0] && j[|j| - 1] == xs[|xs| - 1][|xs[|xs| - 1]| - 1]
  {
    var n := |xs|;
    assert xs == xs[..n - 1] + [xs[n - 1]];
    JoinLinesSnoc(xs[..n - 1], xs[n - 1]);
  }

  /** Lines whose first starts and whose last ends with a character that is not
      white space stay so when trimmed, and so does their joined text. */
  lemma JoinedTrimmedLinesTrimmed(lines: seq<string>, items: seq<string>)
    requires |lines| > 1 && |items| == |lines|
    requires items[0] == Trim(lines[0]) && items[|lines| - 1] == Trim(lines[|lines| - 1])
    requires lines[0] != [] && !IsWhiteSpace(lines[0][0])
    requires lines[|lines| - 1] != [] && !IsWhiteSpace(lines[|lines| - 1][|lines[|lines| - 1]| - 1])
    ensures Trimmed(JoinLines(items))
  {
    TrimKeepsFirst(lines[0]);
    TrimKeepsLast(lines[|lines| - 1]);
    JoinLinesEnds(items);
  }

  /** When a trimmed text holds a line feed, joining its trimmed lines again
      gives a text neither end of which is white space. */
  lemma TrimmedLinesJoinTrimmed(t: string)
    requires Trimmed(t) && |SplitLines(t)| > 1
    ensures Trimmed(JoinLines(TrimEach(SplitLines(t))))
  {
    OuterLinesOfTrimmed(t);
    JoinedTrimmedLinesTrimmed(SplitLines(t), TrimEach(SplitLines(t)));
  }

  /** The joined text of normalised items has no carriage return and neither
      end is white space. */
  lemma NormalisedJoinIsClean(raw: string)
    ensures '\r' !in JoinLines(NormaliseItems(raw))
    ensures Trimmed(JoinLines(NormaliseItems(raw)))
  {
    var t := Trim(RemoveCarriageReturns(raw));
    var lines := SplitLines(t);
    var items := NormaliseItems(raw);
    assert items == TrimEach(lines);
    NoCarriageReturnInJoin(items);
    if |lines| > 1 {
      TrimmedLinesJoinTrimmed(t);
    } else {
      assert JoinLines(items) == items[0];
    }
  }

  lemma {:induction false} NoCarriageReturnInJoin(xs: seq<string>)
    requires forall k :: 0 <= k < |xs| ==> '\r' !in xs[k]
    ensures '\r' !in JoinLines(xs)
  {
    if |xs| > 1 {
      NoCarriageReturnInJoin(xs[1..]);
    }
  }

  /** A text with no carriage return, trimmed, whose lines are all trimmed,
      normalises to its lines. */
  lemma CleanTextNormalisesToLines(j: string)
    requires '\r' !in j && Trimmed(j)
    requires forall k :: 0 <= k < |SplitLines(j)| ==> Trimmed(SplitLines(j)[k])
    ensures NormaliseItems(j) == SplitLines(j)
  {
    assert RemoveCarriageReturns(j) == j;
    assert Trim(j) == j;
  }

  /** A list of clean items whose joined text is clean normalises to itself. */
  lemma CleanItemsNormaliseToThemselves(items: seq<string>)
    requires items != []
    requires forall k :: 0 <= k < |items| ==> '\n' !in items[k] && Trimmed(items[k])
    requires '\r' !in JoinLines(items) && Trimmed(JoinLines(items))
    ensures NormaliseItems(JoinLines(items)) == items
  {
    SplitJoin(items);
    CleanTextNormalisesToLines(JoinLines(items));
  }

  /** Normalising is idempotent: submitting the normalised list again yields
      the same items, so it hashes to the same item set. */
  lemma NormaliseIsIdempotent(raw: string)
    ensures NormaliseItems(JoinLines(NormaliseItems(raw))) == NormaliseItems(raw)
  {
    NormalisedJoinIsClean(raw);
    CleanItemsNormaliseToThemselves(NormaliseItems(raw));
  }
}
