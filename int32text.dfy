/** The decimal text of the integers the ranking page sends and receives: an
    index is rendered with `ToString()` into the form and read back with
    `int.TryParse` when the vote is posted. */
module Int32Text {

  datatype Option<+T> = None | Some(value: T)

  const MinInt32: int := -0x8000_0000
  const MaxInt32: int := 0x7FFF_FFFF

  predicate IsInt32(x: int)
  {
    MinInt32 <= x <= MaxInt32
  }

  /** The white space NumberStyles.Integer allows before and after the number:
      U+0009 to U+000D and the space. */
  predicate IsNumberWhite(c: char)
  {
    ('\t' <= c <= '\r') || c == ' '
  }

  predicate IsDigit(c: char)
  {
    '0' <= c <= '9'
  }

  predicate AllDigits(s: string)
  {
    forall k :: 0 <= k < |s| ==> IsDigit(s[k])
  }

  /** s without the number white space at either end. */
  function StripNumberWhite(s: string): (r: string)
    ensures r == [] || (!IsNumberWhite(r[0]) && !IsNumberWhite(r[|r| - 1]))
    ensures s == [] || (!IsNumberWhite(s[0]) && !IsNumberWhite(s[|s| - 1])) ==> r == s
    ensures forall c :: c in r ==> c in s
  {
    if s == [] then s
    else if IsNumberWhite(s[0]) then StripNumberWhite(s[1..])
    else if IsNumberWhite(s[|s| - 1]) then StripNumberWhite(s[..|s| - 1])
    else s
  }

  /** Only number white space lies outside s[i..j]. */
  predicate WhiteOutside(s: string, i: nat, j: nat)
    requires i <= j <= |s|
  {
    (forall k :: 0 <= k < i ==> IsNumberWhite(s[k])) && (forall k :: j <= k < |s| ==> IsNumberWhite(s[k]))
  }

  /** White space outside a slice of s[1..] stays outside the shifted slice of
      s when s starts with white space. */
  lemma WhiteOutsideFront(s: string, i: nat, j: nat)
    requires s != [] && IsNumberWhite(s[0]) && i <= j <= |s| - 1
    requires WhiteOutside(s[1..], i, j)
    ensures WhiteOutside(s, i + 1, j + 1) && s[1..][i..j] == s[i + 1..j + 1]
  {
    forall k | 0 < k < |s| ensures s[k] == s[1..][k - 1] { }
  }

  /** White space outside a slice of s without its last character stays
      outside that slice of s when s ends with white space. */
  lemma WhiteOutsideBack(s: string, i: nat, j: nat)
    requires s != [] && IsNumberWhite(s[|s| - 1]) && i <= j <= |s| - 1
    requires WhiteOutside(s[..|s| - 1], i, j)
    ensures WhiteOutside(s, i, j) && s[..|s| - 1][i..j] == s[i..j]
  {
    forall k | 0 <= k < |s| - 1 ensures s[k] == s[..|s| - 1][k] { }
  }

  /** Stripping removes number white space from the two ends and nothing
      else: the result is a slice of s with only white space around it. */
  lemma {:induction false} StripNumberWhiteDropsOnlyWhite(s: string)
    ensures exists i: nat, j: nat :: i <= j <= |s| && StripNumberWhite(s) == s[i..j] && WhiteOutside(s, i, j)
    decreases |s|
  {
    if s == [] {
      assert StripNumberWhite(s) == s[0..0] && WhiteOutside(s, 0, 0);
    } else if IsNumberWhite(s[0]) {
      var t := s[1..];
      StripNumberWhiteDropsOnlyWhite(t);
      var i: nat, j: nat :| i <= j <= |t| && StripNumberWhite(t) == t[i..j] && WhiteOutside(t, i, j);
      WhiteOutsideFront(s, i, j);
      assert StripNumberWhite(s) == s[i + 1..j + 1];
    } else if IsNumberWhite(s[|s| - 1]) {
      var t := s[..|s| - 1];
      StripNumberWhiteDropsOnlyWhite(t);
      var i: nat, j: nat :| i <= j <= |t| && StripNumberWhite(t) == t[i..j] && WhiteOutside(t, i, j);
      WhiteOutsideBack(s, i, j);
      assert StripNumberWhite(s) == s[i..j];
    } else {
      assert StripNumberWhite(s) == s[0..|s|] && WhiteOutside(s, 0, |s|);
    }
  }

  /** 10 to the power n. */
  function Pow10(n: nat): (r: nat)
    ensures r >= 1
  {
    if n == 0 then 1 else 10 * Pow10(n - 1)
  }

  /** The value of a string of decimal digits, most significant first. */
  function DigitsValue(ds: string): (v: nat)
    requires AllDigits(ds)
  {
    if ds == [] then 0
    else DigitsValue(ds[..|ds| - 1]) * 10 + (ds[|ds| - 1] as int - '0' as int)
  }

  /** The value of |ds| digits is below 10^|ds|, and at least 10^(|ds| - 1)
      when there is no leading zero. */
  lemma {:induction false} DigitsValueBounds(ds: string)
    requires AllDigits(ds)
    ensures DigitsValue(ds) < Pow10(|ds|)
    ensures ds != [] && ds[0] != '0' ==> Pow10(|ds| - 1) <= DigitsValue(ds)
  {
    if ds != [] {
      var init := ds[..|ds| - 1];
      DigitsValueBounds(init);
      assert init != [] ==> init[0] == ds[0];
    }
  }

  function Digit(d: nat): (c: char)
    requires d < 10
    ensures IsDigit(c) && c as int - '0' as int == d
  {
    ('0' as int + d) as char
  }

  /** The shortest decimal digits of n: no leading zero except for n = 0
      itself. */
  function NatDigits(n: nat): (r: string)
    ensures r != [] && AllDigits(r)
    ensures DigitsValue(r) == n
    ensures n == 0 ==> r == "0"
    ensures n > 0 ==> r[0] != '0'
  {
    if n < 10 then [Digit(n)]
    else
      var r := NatDigits(n / 10) + [Digit(n % 10)];
      assert r[..|r| - 1] == NatDigits(n / 10);
      r
  }

  /** `int.TryParse(s, out v)` with NumberStyles.Integer: optional white space,
      an optional sign, at least one digit, optional white space, and a value
      that fits in 32 bits. */
  function ParseInt32(s: string): (r: Option<int>)
    ensures r.Some? ==> IsInt32(r.value)
    ensures (forall c :: c in s ==> !IsDigit(c)) ==> r.None?
  {
    var t := StripNumberWhite(s);
    var signed := t != [] && (t[0] == '-' || t[0] == '+');
    var digits := if signed then t[1..] else t;
    if digits == [] || !AllDigits(digits) then None
    else
      assert digits[0] in t;
      var magnitude: int := DigitsValue(digits);
      var v := if signed && t[0] == '-' then -magnitude else magnitude;
      if IsInt32(v) then Some(v) else None
  }

  /** `x.ToString()`: a minus sign for negative numbers, then the digits. */
  function Int32ToString(x: int): (s: string)
    ensures x >= 0 ==> s != [] && AllDigits(s) && DigitsValue(s) == x && (|s| == 1 || s[0] != '0')
    ensures x < 0 ==> |s| >= 2 && s[0] == '-' && AllDigits(s[1..]) && DigitsValue(s[1..]) == -x && s[1] != '0'
  {
    if x < 0 then "-" + NatDigits(-x) else NatDigits(x)
  }

  /** Parsing reads back every 32-bit integer that ToString renders. */
  lemma ParseInt32OfToString(x: int)
    requires IsInt32(x)
    ensures ParseInt32(Int32ToString(x)) == Some(x)
  {
    var s := Int32ToString(x);
    var digits := NatDigits(if x < 0 then -x else x);
    assert s[|s| - 1] == digits[|digits| - 1];
    assert StripNumberWhite(s) == s;
    if x < 0 {
      assert s[1..] == digits;
    }
  }
}
