/** The two pieces of Python text handling the driver and its window lean on:
    `str.strip()` (applied to every device reply) and `int(text)` (applied to the
    user's trigger-cycle, sweep-time and phase fields and to the count token). */
module PyText {
  import opened Wrappers
  import opened Decimal

  /** The characters Python's `str.isspace()` accepts. */
  predicate IsSpace(c: char) {
    var n := c as int;
    || 9 <= n <= 13 || 28 <= n <= 32 || n == 0x85 || n == 0xA0 || n == 0x1680
    || 0x2000 <= n <= 0x200A || n == 0x2028 || n == 0x2029 || n == 0x202F
    || n == 0x205F || n == 0x3000
  }

  /** Which whitespace is cut: `Unicode` is everything `str.isspace()` accepts, as
      `str.strip()` cuts it; `Numeric` is what `int()` skips around a number. CPython
      first rewrites every non-ASCII whitespace character as a plain space and copies
      the ASCII ones unchanged; its parser then skips only tab, line feed, vertical
      tab, form feed, carriage return and space. */
  datatype Blanks = Unicode | Numeric

  predicate IsBlank(c: char, b: Blanks) {
    match b
    case Unicode => IsSpace(c)
    case Numeric => if c as int < 128 then 9 <= c as int <= 13 || c == ' ' else IsSpace(c)
  }

  /** First index at or after `i` that does not hold whitespace. */
  function SkipSpaces(s: string, i: nat, b: Blanks): (k: nat)
    requires i <= |s|
    ensures i <= k <= |s|
    ensures forall j :: i <= j < k ==> IsBlank(s[j], b)
    ensures k < |s| ==> !IsBlank(s[k], b)
    decreases |s| - i
  {
    if i < |s| && IsBlank(s[i], b) then SkipSpaces(s, i + 1, b) else i
  }

  /** Smallest `k <= j` such that `s[k..j]` is all whitespace. */
  function BackSpaces(s: string, j: nat, b: Blanks): (k: nat)
    requires j <= |s|
    ensures k <= j
    ensures forall m :: k <= m < j ==> IsBlank(s[m], b)
    ensures k > 0 ==> !IsBlank(s[k - 1], b)
  {
    if j > 0 && IsBlank(s[j - 1], b) then BackSpaces(s, j - 1, b) else j
  }

  /** The middle of `s` once the whitespace `b` is cut from both ends. */
  function Trim(s: string, b: Blanks): (r: string)
    ensures |r| <= |s|
    ensures r != [] ==> !IsBlank(r[0], b) && !IsBlank(r[|r| - 1], b)
  {
    var lo := SkipSpaces(s, 0, b);
    var hi := BackSpaces(s, |s|, b);
    if lo < hi then s[lo..hi] else []
  }

  /** Python's `s.strip()`: the middle of `s` once whitespace is cut from both ends. */
  function Strip(s: string): (r: string)
    ensures |r| <= |s|
    ensures r != [] ==> !IsSpace(r[0]) && !IsSpace(r[|r| - 1])
  {
    Trim(s, Unicode)
  }

  /** `int()` skips exactly the `str.isspace()` characters other than the four
      information separators U+001C..U+001F. */
  lemma NumericBlanks(c: char)
    ensures IsBlank(c, Numeric) <==> IsSpace(c) && !(28 <= c as int <= 31)
  {
  }

  /** The digit part Python's `int()` accepts: a digit, then digits, each of which may
      be preceded by a single underscore. */
  predicate IsDigitGroups(s: string) {
    |s| > 0 && IsDigit(s[0]) && IsGroupTail(s[1..])
  }

  predicate IsGroupTail(s: string)
    decreases |s|
  {
    || s == []
    || (IsDigit(s[0]) && IsGroupTail(s[1..]))
    || (|s| >= 2 && s[0] == '_' && IsDigit(s[1]) && IsGroupTail(s[2..]))
  }

  /** The digits of `s` in order; on digit groups this drops exactly the underscores. */
  function DropUnderscores(s: string): (d: string)
    ensures AllDigits(d) && |d| <= |s|
    ensures AllDigits(s) ==> d == s
  {
    if s == [] then []
    else (if IsDigit(s[0]) then [s[0]] else []) + DropUnderscores(s[1..])
  }

  /** Python's `int(text)` in base 10: surrounding whitespace, then an optional sign,
      then digit groups. `None` is the ValueError Python raises, which includes a digit
      string longer than `MaxStrDigits`. */
  function ParseInt(text: string): Option<int> {
    ParseStripped(Trim(text, Numeric))
  }

  /** `int()` once the surrounding whitespace is gone: an optional sign, then the
      digit groups. */
  function ParseStripped(t: string): Option<int> {
    if |t| > 0 && (t[0] == '-' || t[0] == '+') then ParseDigitGroups(t[1..], t[0] == '-')
    else ParseDigitGroups(t, false)
  }

  /** The digit groups after the sign, negated when the sign was a minus. */
  function ParseDigitGroups(body: string, negative: bool): Option<int> {
    if !IsDigitGroups(body) then None
    else
      var d := DropUnderscores(body);
      if |d| > MaxStrDigits then None
      else Some(if negative then 0 - DigitsValue(d) else DigitsValue(d))
  }

  // ---------------------------------------------------------------------------
  // Lemmas

  /** What `strip()` keeps: the text from the first non-whitespace character on, with
      only whitespace after it; nothing at all when every character is whitespace. */
  lemma StripContents(s: string)
    ensures var r := Strip(s); var a := SkipSpaces(s, 0, Unicode);
      && (r == [] <==> forall k :: 0 <= k < |s| ==> IsSpace(s[k]))
      && a + |r| <= |s| && r == s[a..a + |r|]
      && forall k :: a + |r| <= k < |s| ==> IsSpace(s[k])
  {
    var a := SkipSpaces(s, 0, Unicode);
    var b := BackSpaces(s, |s|, Unicode);
    if a >= b {
      assert a == |s|;
      assert s[0..0] == [];
    }
  }

  /** Either cut leaves a text with no whitespace at its ends unchanged. */
  lemma StripUnpadded(s: string, b: Blanks)
    requires s != [] && !IsBlank(s[0], b) && !IsBlank(s[|s| - 1], b)
    ensures Trim(s, b) == s
  {
    assert BackSpaces(s, |s|, b) == |s|;
    assert s[0..|s|] == s;
  }

  /** `int()` reads back every canonical decimal it can convert: `int(str(i)) == i`. */
  lemma ParseIntOfIntText(i: int)
    requires Printable(i)
    ensures ParseInt(IntText(i)) == Some(i)
  {
    var m := if i < 0 then -i else i;
    var s := IntText(i);
    StripUnpadded(s, Numeric);
    NatTextValue(m);
    if i < 0 {
      assert s[1..] == NatText(m);
    }
    ParseStrippedDigits(s, NatText(m));
  }

  /** `int()` of an optional sign followed by plain digits: the signed value of the
      digits, unless there are more digits than the conversion limit allows. */
  lemma ParseStrippedDigits(t: string, d: string)
    requires AllDigits(d) && |d| >= 1
    requires t == d || (|t| >= 1 && (t[0] == '-' || t[0] == '+') && t[1..] == d)
    ensures |d| > MaxStrDigits ==> ParseStripped(t) == None
    ensures |d| <= MaxStrDigits ==>
      ParseStripped(t) == Some(if t[0] == '-' then 0 - DigitsValue(d) else DigitsValue(d))
  {
    ParseDigits(d, t[0] == '-');
    if t == d {
      assert !(t[0] == '-' || t[0] == '+');
    }
  }

  /** Plain digits parse to their value, negated on request, within the limit. */
  lemma ParseDigits(d: string, negative: bool)
    requires AllDigits(d) && |d| >= 1
    ensures ParseDigitGroups(d, negative) ==
      if |d| > MaxStrDigits then None else Some(if negative then 0 - DigitsValue(d) else DigitsValue(d))
  {
    AllDigitsGroupTail(d[1..]);
    assert IsDigitGroups(d);
    assert DropUnderscores(d) == d;
  }

  lemma {:induction false} AllDigitsGroupTail(s: string)
    requires AllDigits(s)
    ensures IsGroupTail(s)
    decreases |s|
  {
    if s != [] {
      AllDigitsGroupTail(s[1..]);
    }
  }

  /** Whatever `int()` accepts prints back within the digit limit. */
  lemma ParseIntWithinLimit(text: string, v: int)
    requires ParseInt(text) == Some(v)
    ensures Printable(v)
  {
    var t := Trim(text, Numeric);
    var body := if |t| > 0 && (t[0] == '-' || t[0] == '+') then t[1..] else t;
    var d := DropUnderscores(body);
    if d != [] {
      NatTextOfDigitsValue(d);
    }
  }

  /** A text without any digit is never an integer. */
  lemma ParseIntNeedsDigit(text: string)
    requires forall k :: 0 <= k < |text| ==> !IsDigit(text[k])
    ensures ParseInt(text) == None
  {
  }

  /** The separators U+001C..U+001F are whitespace to `str.isspace()` but not to
      `int()`: "\x1c42" is refused. */
  lemma SeparatorRefused()
    ensures ParseInt([28 as char, '4', '2']) == None
  {
    var a := [28 as char, '4', '2'];
    assert SkipSpaces(a, 0, Numeric) == 0 && BackSpaces(a, 3, Numeric) == 3;
    assert a[0..3] == a;
  }

  /** A non-ASCII character elsewhere in the text changes nothing for the separator:
      "\x1c42" followed by an ideographic space is refused as well. */
  lemma SeparatorRefusedBeforeWideSpace()
    ensures ParseInt([28 as char, '4', '2', 0x3000 as char]) == None
  {
    var u := [28 as char, '4', '2', 0x3000 as char];
    assert SkipSpaces(u, 0, Numeric) == 0 by {
      assert !IsBlank(u[0], Numeric);
    }
    assert BackSpaces(u, 4, Numeric) == 3 by {
      assert IsBlank(u[3], Numeric) && !IsBlank(u[2], Numeric);
    }
    assert Trim(u, Numeric) == u[0..3];
    assert u[0..3][0] == 28 as char;
  }

  /** Non-ASCII whitespace is skipped: an ideographic space before "42" reads as 42. */
  lemma WideSpaceSkipped()
    ensures ParseInt([0x3000 as char, '4', '2']) == Some(42)
  {
    var u := [0x3000 as char, '4', '2'];
    assert SkipSpaces(u, 0, Numeric) == 1 by {
      assert IsBlank(u[0], Numeric) && !IsBlank(u[1], Numeric);
    }
    assert BackSpaces(u, 3, Numeric) == 3;
    var d := u[1..3];
    assert d == ['4', '2'] && d[..1] == ['4'];
    assert Trim(u, Numeric) == d;
    assert !(d[0] == '-' || d[0] == '+');
    ParseDigits(d, false);
    assert DigitsValue(d) == 42;
  }
}
