/** Decimal text: the integer formatting the driver relies on (Python's `str(n)`,
    the `0{w}d` format spec and `.2f` over whole hundredths) and the signed-digit
    reading that undoes it. */
module Decimal {
  import opened Wrappers

  predicate IsDigit(c: char) { '0' <= c <= '9' }

  predicate AllDigits(s: string) {
    forall i :: 0 <= i < |s| ==> IsDigit(s[i])
  }

  function DigitChar(d: nat): (c: char)
    requires d < 10
    ensures IsDigit(c)
  {
    ('0' as int + d) as char
  }

  function DigitValue(c: char): (d: nat)
    requires IsDigit(c)
    ensures d < 10 && DigitChar(d) == c
  {
    c as int - '0' as int
  }

  function Pow10(w: nat): (p: nat)
    ensures p >= 1
  {
    if w == 0 then 1 else 10 * Pow10(w - 1)
  }

  /** The canonical decimal digits of `n`, most significant first: at least one digit,
      and no leading zero unless `n` is zero. */
  function NatText(n: nat): (s: string)
    ensures 1 <= |s| && AllDigits(s)
    ensures |s| > 1 ==> s[0] != '0'
  {
    if n < 10 then [DigitChar(n)] else NatText(n / 10) + [DigitChar(n % 10)]
  }

  /** The number a string of digits denotes; leading zeros contribute nothing. */
  function DigitsValue(s: string): (v: nat)
    requires AllDigits(s)
    ensures v < Pow10(|s|)
  {
    if s == [] then 0
    else
      var v := DigitsValue(s[..|s| - 1]);
      assert v <= Pow10(|s| - 1) - 1;
      v * 10 + DigitValue(s[|s| - 1])
  }

  /** Python's `str(i)`: a minus sign for negative values, then the canonical digits. */
  function IntText(i: int): string {
    if i < 0 then "-" + NatText(-i) else NatText(i)
  }

  /** CPython's ceiling on the digits of an integer converted to or from decimal text
      (`sys.int_info.default_max_str_digits`, from Python 3.11 on): `str()`, an
      f-string and `int()` all raise ValueError past it. */
  const MaxStrDigits: nat := 4300

  /** Whether Python turns `i` into decimal text: its digits, the sign not counted,
      are within the ceiling. */
  predicate Printable(i: int) {
    |NatText(if i < 0 then -i else i)| <= MaxStrDigits
  }

  function Zeros(k: nat): (z: string)
    ensures |z| == k && AllDigits(z)
  {
    seq(k, _ => '0')
  }

  /** Left-fills `s` with zeros up to width `w`; never shortens it. */
  function PadZeros(s: string, w: nat): string {
    if |s| < w then Zeros(w - |s|) + s else s
  }

  /** Python's `f"{i:0{w}d}"`: the sign comes first and counts towards the width,
      zeros fill between sign and digits, and a value too wide is printed whole. */
  function ZeroPad(i: int, w: nat): string {
    if i < 0 then "-" + PadZeros(NatText(-i), if w > 0 then w - 1 else 0)
    else PadZeros(NatText(i), w)
  }

  /** A whole number of hundredths printed with exactly two decimals, as Python's
      `.2f` prints the value `h / 100`. */
  function Fixed2(h: int): string {
    if h < 0 then "-" + Fixed2Body(-h) else Fixed2Body(h)
  }

  /** `m` hundredths as whole units, a point and exactly two more digits. */
  function Fixed2Body(m: nat): string {
    var cents := m % 100;
    NatText(m / 100) + "." + [DigitChar(cents / 10), DigitChar(cents % 10)]
  }

  /** Reads an optional '-' followed by one or more digits (leading zeros allowed):
      the reference reading of a numeric command payload, written as the inverse of
      the formatting above. */
  function SignedValue(s: string): Option<int> {
    if |s| > 1 && s[0] == '-' && AllDigits(s[1..]) then Some(0 - DigitsValue(s[1..]))
    else if |s| > 0 && AllDigits(s) then Some(DigitsValue(s))
    else None
  }

  /** Reads `[-]digits.dd` as a whole number of hundredths. */
  function Fixed2Value(s: string): Option<int> {
    if |s| > 0 && s[0] == '-' then
      match UnsignedFixed2Value(s[1..])
      case Some(v) => Some(0 - v)
      case None => None
    else UnsignedFixed2Value(s)
  }

  /** Reads `digits.dd` as a whole number of hundredths. */
  function UnsignedFixed2Value(body: string): Option<nat> {
    if |body| >= 4 && body[|body| - 3] == '.'
       && AllDigits(body[..|body| - 3]) && AllDigits(body[|body| - 2..])
    then Some(DigitsValue(body[..|body| - 3]) * 100 + DigitsValue(body[|body| - 2..]))
    else None
  }

  // ---------------------------------------------------------------------------
  // Lemmas

  lemma {:induction false} NatTextValue(n: nat)
    ensures DigitsValue(NatText(n)) == n
  {
    if n >= 10 {
      NatTextValue(n / 10);
      var s := NatText(n);
      assert s[..|s| - 1] == NatText(n / 10);
    }
  }

  /** A value has at most `w` digits exactly when it is below 10^w. */
  lemma {:induction false} NatTextLength(n: nat, w: nat)
    requires w >= 1
    ensures |NatText(n)| <= w <==> n < Pow10(w)
  {
    if n >= 10 {
      if w == 1 {
        assert |NatText(n)| >= 2;
      } else {
        NatTextLength(n / 10, w - 1);
      }
    }
  }

  /** Python prints an integer exactly when its magnitude is below 10^4300. */
  lemma PrintableBound(i: int)
    ensures Printable(i) <==> -(Pow10(MaxStrDigits) as int) < i < Pow10(MaxStrDigits)
  {
    NatTextLength(if i < 0 then -i else i, MaxStrDigits);
  }

  /** Re-printing the value of a digit string never needs more digits. */
  lemma NatTextOfDigitsValue(s: string)
    requires AllDigits(s) && |s| >= 1
    ensures |NatText(DigitsValue(s))| <= |s|
  {
    NatTextLength(DigitsValue(s), |s|);
  }

  lemma {:induction false} ZerosValue(k: nat, s: string)
    requires AllDigits(s)
    ensures AllDigits(Zeros(k) + s)
    ensures DigitsValue(Zeros(k) + s) == DigitsValue(s)
  {
    var t := Zeros(k) + s;
    if s == [] {
      assert t == Zeros(k);
      ZerosAlone(k);
    } else {
      assert t[..|t| - 1] == Zeros(k) + s[..|s| - 1];
      ZerosValue(k, s[..|s| - 1]);
    }
  }

  lemma {:induction false} ZerosAlone(k: nat)
    ensures DigitsValue(Zeros(k)) == 0
  {
    if k > 0 {
      assert Zeros(k)[..k - 1] == Zeros(k - 1);
      ZerosAlone(k - 1);
    }
  }

  /** Zero padding never changes the value printed. */
  lemma PadZerosValue(s: string, w: nat)
    requires AllDigits(s)
    ensures AllDigits(PadZeros(s, w)) && DigitsValue(PadZeros(s, w)) == DigitsValue(s)
  {
    if |s| < w {
      ZerosValue(w - |s|, s);
    }
  }

  /** Reading back a zero-padded value gives the value itself, whatever the width:
      padding is never lossy. */
  lemma ZeroPadRoundTrip(i: int, w: nat)
    ensures SignedValue(ZeroPad(i, w)) == Some(i)
  {
    if i < 0 {
      NegativePadRoundTrip(-i, if w > 0 then w - 1 else 0);
    } else {
      PositivePadRoundTrip(i, w);
    }
  }

  lemma PositivePadRoundTrip(m: nat, w: nat)
    ensures SignedValue(PadZeros(NatText(m), w)) == Some(m)
  {
    PaddedDigits(m, w);
    SignedValueDigits(PadZeros(NatText(m), w));
  }

  lemma NegativePadRoundTrip(m: nat, v: nat)
    ensures SignedValue("-" + PadZeros(NatText(m), v)) == Some(0 - m)
  {
    PaddedDigits(m, v);
    SignedValueNegative(PadZeros(NatText(m), v));
  }

  /** The zero-padded digits of `m` are a non-empty digit string denoting `m`. */
  lemma PaddedDigits(m: nat, w: nat)
    ensures var p := PadZeros(NatText(m), w);
      |p| >= 1 && AllDigits(p) && DigitsValue(p) == m
  {
    PadZerosValue(NatText(m), w);
    NatTextValue(m);
  }

  lemma SignedValueNegative(p: string)
    requires |p| >= 1 && AllDigits(p)
    ensures SignedValue("-" + p) == Some(0 - DigitsValue(p))
  {
    var s := "-" + p;
    assert s[1..] == p;
  }

  lemma SignedValueDigits(p: string)
    requires |p| >= 1 && AllDigits(p)
    ensures SignedValue(p) == Some(DigitsValue(p))
  {
    assert IsDigit(p[0]);
  }

  lemma IntTextRoundTrip(i: int)
    ensures SignedValue(IntText(i)) == Some(i)
  {
    assert IntText(i) == ZeroPad(i, 0);
    ZeroPadRoundTrip(i, 0);
  }

  /** The widths of `0{w}d`: a non-negative value below 10^w takes exactly `w` digit
      characters; a larger one is widened to its full digits, never truncated; and no
      value ever prints narrower than `w`. */
  lemma ZeroPadWidth(i: int, w: nat)
    requires w >= 1
    ensures |ZeroPad(i, w)| >= w
    ensures 0 <= i < Pow10(w) ==> |ZeroPad(i, w)| == w && AllDigits(ZeroPad(i, w))
    ensures i >= Pow10(w) ==> ZeroPad(i, w) == NatText(i) && |ZeroPad(i, w)| > w
  {
    if i >= 0 {
      NatTextLength(i, w);
    }
  }

  lemma Fixed2RoundTrip(h: int)
    ensures Fixed2Value(Fixed2(h)) == Some(h)
  {
    var m := if h < 0 then -h else h;
    var body := Fixed2Body(m);
    Fixed2BodyRoundTrip(m);
    Fixed2BodyLead(m);
    if h < 0 {
      assert ("-" + body)[1..] == body;
    }
  }

  /** The body of a `.2f` text starts with a digit, never with a sign. */
  lemma Fixed2BodyLead(m: nat)
    ensures |Fixed2Body(m)| >= 4 && IsDigit(Fixed2Body(m)[0])
  {
    var ip := NatText(m / 100);
    assert Fixed2Body(m)[0] == ip[0];
  }

  lemma Fixed2BodyRoundTrip(m: nat)
    ensures UnsignedFixed2Value(Fixed2Body(m)) == Some(m)
  {
    var cents := m % 100;
    var ip := NatText(m / 100);
    var fp := [DigitChar(cents / 10), DigitChar(cents % 10)];
    var body := Fixed2Body(m);
    assert body[..|body| - 3] == ip;
    assert body[|body| - 3] == '.';
    assert body[|body| - 2..] == fp;
    TwoDigits(cents / 10, cents % 10);
    NatTextValue(m / 100);
    HundredsSplit(m);
  }

  /** Two digit characters denote ten times the first plus the second. */
  lemma TwoDigits(a: nat, b: nat)
    requires a < 10 && b < 10
    ensures AllDigits([DigitChar(a), DigitChar(b)])
    ensures DigitsValue([DigitChar(a), DigitChar(b)]) == 10 * a + b
  {
    var t := [DigitChar(a), DigitChar(b)];
    assert t[..1] == [DigitChar(a)];
    assert [DigitChar(a)][..0] == [];
  }

  /** A number is its hundreds and the two digits of its remainder put together. */
  lemma HundredsSplit(m: nat)
    ensures (m / 100) * 100 + (m % 100 / 10) * 10 + m % 100 % 10 == m
  {
    var r := m % 100;
    assert m == (m / 100) * 100 + r;
    assert r == (r / 10) * 10 + r % 10;
  }

  /** `.2f` prints exactly two digits after the point. */
  lemma Fixed2Shape(h: int)
    ensures var s := Fixed2(h);
      |s| >= 4 && s[|s| - 3] == '.' && IsDigit(s[|s| - 2]) && IsDigit(s[|s| - 1])
  {
  }
}
