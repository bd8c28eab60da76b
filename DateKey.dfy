/**
 * Date keys: the `YYYY-MM-DD` strings under which a heat-map stores its counts
 * (`formatDateKey`), how `new Date(key)` reads them back, and why sorting them
 * as strings puts them in date order.
 */
module DateKey {
  import opened Wrappers
  import opened Calendar

  function DigitChar(k: int): (c: char)
    requires 0 <= k < 10
    ensures '0' <= c <= '9'
  {
    ('0' as int + k) as char
  }

  predicate IsDigitChar(c: char) {
    '0' <= c <= '9'
  }

  function DigitValue(c: char): (k: int)
    requires IsDigitChar(c)
    ensures 0 <= k < 10 && DigitChar(k) == c
  {
    c as int - '0' as int
  }

  /** `String(x)` for a natural number: decimal digits without leading zeros. */
  function NatToString(x: nat): (s: string)
    ensures 1 <= |s|
    decreases x
  {
    if x < 10 then [DigitChar(x)] else NatToString(x / 10) + [DigitChar(x % 10)]
  }

  /** `String(x)` (and a template literal `${x}`) for an integer. */
  function IntToString(x: int): string {
    if x < 0 then "-" + NatToString(-x) else NatToString(x)
  }

  /** `s.padStart(2, "0")`. */
  function PadStart2(s: string): (r: string)
    ensures |s| < 2 ==> |r| == 2 && r[2 - |s|..] == s
    ensures |s| >= 2 ==> r == s
  {
    if |s| >= 2 then s else if |s| == 1 then "0" + s else "00"
  }

  /** `x` written with exactly `w` digits, leading zeros kept. */
  function Digits(x: nat, w: nat): (s: string)
    ensures |s| == w
  {
    if w == 0 then [] else Digits(x / 10, w - 1) + [DigitChar(x % 10)]
  }

  function Pow10(w: nat): (p: nat)
    ensures p >= 1
  {
    if w == 0 then 1 else 10 * Pow10(w - 1)
  }

  predicate AllDigits(s: string) {
    forall i :: 0 <= i < |s| ==> IsDigitChar(s[i])
  }

  /** The number a string of decimal digits denotes, leading zeros allowed. */
  function DigitsValue(s: string): (v: nat)
    requires AllDigits(s)
    ensures v < Pow10(|s|)
  {
    if s == [] then 0 else DigitsValue(s[..|s| - 1]) * 10 + DigitValue(s[|s| - 1])
  }

  /** Three fields joined by dashes, as the template `${y}-${m}-${day}` joins them. */
  function Join3(y: string, m: string, d: string): string {
    y + ("-" + (m + ("-" + d)))
  }

  /** The key of a calendar date: `${y}-${mm}-${dd}`, month and day zero-padded to two digits. */
  function CivilKey(c: Civil): string
    requires ValidCivil(c)
  {
    Join3(IntToString(c.year), PadStart2(NatToString(c.month)), PadStart2(NatToString(c.day)))
  }

  /** `formatDateKey`. */
  function FormatKey(n: Day): string {
    CivilKey(CivilFromDays(n))
  }

  /**
   * `new Date(key)` on an ISO date-only string `YYYY-MM-DD`, as a day number;
   * `None` stands for an Invalid Date.
   */
  function ParseKey(s: string): Option<Day> {
    if |s| == 10 && s[4] == '-' && s[7] == '-'
       && AllDigits(s[..4]) && AllDigits(s[5..7]) && AllDigits(s[8..])
    then
      var c := Civil(DigitsValue(s[..4]), DigitsValue(s[5..7]), DigitsValue(s[8..]));
      if ValidCivil(c) then Some(DaysFromCivil(c)) else None
    else None
  }

  /** JavaScript's `<` on strings (and the order `Array.prototype.sort` uses): lexicographic. */
  predicate LexLess(a: string, b: string)
    decreases |a|
  {
    if a == [] then b != []
    else if b == [] then false
    else if a[0] != b[0] then a[0] < b[0]
    else LexLess(a[1..], b[1..])
  }

  /** Digit-by-digit facts used below. */

  lemma {:induction false} DigitsAreDigits(x: nat, w: nat)
    ensures AllDigits(Digits(x, w))
  {
    if w > 0 {
      DigitsAreDigits(x / 10, w - 1);
    }
  }

  lemma {:induction false} DigitsRoundTrip(x: nat, w: nat)
    requires x < Pow10(w)
    ensures AllDigits(Digits(x, w)) && DigitsValue(Digits(x, w)) == x
  {
    DigitsAreDigits(x, w);
    if w > 0 {
      var s := Digits(x, w);
      assert x / 10 < Pow10(w - 1);
      DigitsRoundTrip(x / 10, w - 1);
      assert s[..|s| - 1] == Digits(x / 10, w - 1);
      assert DigitValue(s[|s| - 1]) == x % 10;
      assert DigitsValue(s) == DigitsValue(s[..|s| - 1]) * 10 + DigitValue(s[|s| - 1]);
    }
  }

  /** A two-field comparison: equal-length heads decide unless they are equal. */
  lemma {:induction false} LexConcat(a: string, b: string, x: string, y: string)
    requires |a| == |b|
    ensures LexLess(a + x, b + y) == (if a == b then LexLess(x, y) else LexLess(a, b))
    decreases |a|
  {
    if a != [] {
      assert (a + x)[0] == a[0] && (b + y)[0] == b[0];
      assert (a + x)[1..] == a[1..] + x && (b + y)[1..] == b[1..] + y;
      if a[0] == b[0] {
        LexConcat(a[1..], b[1..], x, y);
        assert a == b <==> a[1..] == b[1..] by {
          if a[1..] == b[1..] {
            assert a == [a[0]] + a[1..] && b == [b[0]] + b[1..];
          }
        }
      }
    } else {
      assert a + x == x && b + y == y;
    }
  }

  /** Fixed-width decimal strings compare as strings exactly as their numbers compare. */
  lemma {:induction false} DigitsOrder(x: nat, y: nat, w: nat)
    requires x < Pow10(w) && y < Pow10(w)
    ensures LexLess(Digits(x, w), Digits(y, w)) <==> x < y
    ensures Digits(x, w) == Digits(y, w) <==> x == y
  {
    if w > 0 {
      var hx, hy := Digits(x / 10, w - 1), Digits(y / 10, w - 1);
      var cx, cy := DigitChar(x % 10), DigitChar(y % 10);
      DigitsOrder(x / 10, y / 10, w - 1);
      LexConcat(hx, hy, [cx], [cy]);
      assert LexLess([cx], [cy]) <==> cx < cy by {
        assert [cx][1..] == [] && [cy][1..] == [];
      }
      if hx + [cx] == hy + [cy] {
        assert hx == (hx + [cx])[..w - 1] && hy == (hy + [cy])[..w - 1];
        assert cx == (hx + [cx])[w - 1] && cy == (hy + [cy])[w - 1];
      }
    }
  }

  lemma NatToStringOf2(x: nat)
    requires 1 <= x <= 99
    ensures PadStart2(NatToString(x)) == Digits(x, 2)
  {
    if x >= 10 {
      assert NatToString(x) == NatToString(x / 10) + [DigitChar(x % 10)];
    }
  }

  lemma NatToStringOf4(x: nat)
    requires 1000 <= x <= 9999
    ensures IntToString(x) == Digits(x, 4)
  {
    assert NatToString(x / 1000) == Digits(x / 1000, 1);
    assert NatToString(x / 100) == Digits(x / 100, 2);
    assert NatToString(x / 10) == Digits(x / 10, 3);
  }

  /** The three fields of a key can be cut out again at fixed offsets. */
  lemma KeySlices(y: string, m: string, d: string)
    requires |y| == 4 && |m| == 2 && |d| == 2
    ensures var s := Join3(y, m, d);
      |s| == 10 && s[4] == '-' && s[7] == '-' && s[..4] == y && s[5..7] == m && s[8..] == d
  {
  }

  /** The shape of a key whose year has four digits, field by field. */
  lemma CivilKeyFields(c: Civil)
    requires ValidCivil(c) && 1000 <= c.year <= 9999
    ensures CivilKey(c) == Join3(Digits(c.year, 4), Digits(c.month, 2), Digits(c.day, 2))
  {
    NatToStringOf4(c.year);
    NatToStringOf2(c.month);
    NatToStringOf2(c.day);
  }

  /** Behind a field of fixed width, a dash and the rest decide only when the fields agree. */
  lemma FieldOrder(a: string, b: string, x: string, y: string)
    requires |a| == |b|
    ensures LexLess(a + ("-" + x), b + ("-" + y)) == if a == b then LexLess(x, y) else LexLess(a, b)
    ensures a + ("-" + x) == b + ("-" + y) <==> a == b && x == y
  {
    LexConcat(a, b, "-" + x, "-" + y);
    LexConcat("-", "-", x, y);
    ConcatEqual(a, b, "-" + x, "-" + y);
    ConcatEqual("-", "-", x, y);
  }

  /** Two joins with heads of equal length are equal exactly when heads and tails are. */
  lemma ConcatEqual(a: string, b: string, x: string, y: string)
    requires |a| == |b|
    ensures a + x == b + y <==> a == b && x == y
  {
    if a + x == b + y {
      assert a == (a + x)[..|a|] && b == (b + y)[..|a|];
      assert x == (a + x)[|a|..] && y == (b + y)[|a|..];
    }
  }

  /** Keys of dates with four-digit years compare as strings exactly as the dates compare. */
  lemma CivilKeyOrder(a: Civil, b: Civil)
    requires ValidCivil(a) && 1000 <= a.year <= 9999
    requires ValidCivil(b) && 1000 <= b.year <= 9999
    ensures LexLess(CivilKey(a), CivilKey(b)) <==> CivilLess(a, b)
    ensures CivilKey(a) == CivilKey(b) <==> a == b
  {
    CivilKeyFields(a);
    CivilKeyFields(b);
    var ya, yb := Digits(a.year, 4), Digits(b.year, 4);
    var ma, mb := Digits(a.month, 2), Digits(b.month, 2);
    var da, db := Digits(a.day, 2), Digits(b.day, 2);
    DigitsOrder(a.year, b.year, 4);
    DigitsOrder(a.month, b.month, 2);
    DigitsOrder(a.day, b.day, 2);
    FieldOrder(ma, mb, da, db);
    FieldOrder(ya, yb, ma + ("-" + da), mb + ("-" + db));
  }

  /** Days whose year `formatDateKey` prints with exactly four digits. */
  predicate FourDigitYear(n: Day) {
    1000 <= YearOf(n) <= 9999
  }

  /** 1000-01-01 and 10000-01-01 as day numbers. */
  const FourDigitFirst: Day := -354285
  const FourDigitEnd: Day := 2932897

  lemma FourDigitBounds()
    ensures YearStart(1000) == FourDigitFirst && YearStart(10000) == FourDigitEnd
  {
  }

  /** The four-digit era as a span of day numbers. */
  lemma FourDigitEra(n: Day)
    ensures FourDigitYear(n) <==> FourDigitFirst <= n < FourDigitEnd
  {
    FourDigitBounds();
    var y := YearOf(n);
    if y < 1000 {
      YearStartMono(y + 1, 1000);
    } else if y > 9999 {
      YearStartMono(10000, y);
    } else {
      YearStartMono(1000, y);
      YearStartMono(y + 1, 10000);
    }
  }

  /**
   * Sorting keys as strings sorts them by date: for two days in the four-digit
   * era, the earlier day has the smaller key, and distinct days have distinct keys.
   */
  lemma KeyOrder(m: Day, n: Day)
    requires FourDigitYear(m) && FourDigitYear(n)
    ensures LexLess(FormatKey(m), FormatKey(n)) <==> m < n
    ensures FormatKey(m) == FormatKey(n) <==> m == n
  {
    CivilKeyOrder(CivilFromDays(m), CivilFromDays(n));
    DayOrderIsCivilOrder(m, n);
  }

  /** `KeyOrder` for days given by their place in the four-digit era. */
  lemma KeyOrderInEra(m: Day, n: Day)
    requires FourDigitFirst <= m < FourDigitEnd && FourDigitFirst <= n < FourDigitEnd
    ensures LexLess(FormatKey(m), FormatKey(n)) <==> m < n
    ensures FormatKey(m) == FormatKey(n) <==> m == n
  {
    FourDigitEra(m);
    FourDigitEra(n);
    KeyOrder(m, n);
  }

  /** `new Date(key)` reads every four-digit-year key back as its own date. */
  lemma ParseCivilKey(c: Civil)
    requires ValidCivil(c) && 1000 <= c.year <= 9999
    ensures ParseKey(CivilKey(c)) == Some(DaysFromCivil(c))
  {
    CivilKeyFields(c);
    KeySlices(Digits(c.year, 4), Digits(c.month, 2), Digits(c.day, 2));
    DigitsRoundTrip(c.year, 4);
    DigitsRoundTrip(c.month, 2);
    DigitsRoundTrip(c.day, 2);
  }

  /** `new Date(formatDateKey(d))` gives back the day `d` in the four-digit era. */
  lemma ParseFormatKey(n: Day)
    requires FourDigitYear(n)
    ensures ParseKey(FormatKey(n)) == Some(n)
  {
    ParseCivilKey(CivilFromDays(n));
  }

  /** `ParseFormatKey` for a day given by its place in the four-digit era. */
  lemma ParseFormatKeyInEra(n: Day)
    requires FourDigitFirst <= n < FourDigitEnd
    ensures ParseKey(FormatKey(n)) == Some(n)
  {
    FourDigitEra(n);
    ParseFormatKey(n);
  }

  /**
   * What the statistics rely on about a day-key function on the four-digit
   * era: keys sort in day order, and `new Date(key)` gives the day back.
   */
  ghost predicate KeyFacts(key: Day -> string) {
    && (forall m, n :: FourDigitFirst <= m < n < FourDigitEnd ==> LexLess(key(m), key(n)))
    && (forall n :: FourDigitFirst <= n < FourDigitEnd ==> ParseKey(key(n)) == Some(n))
  }

  /** `formatDateKey` has those properties. */
  lemma FormatKeyFacts()
    ensures KeyFacts(FormatKey)
  {
    forall m, n | FourDigitFirst <= m < n < FourDigitEnd
      ensures LexLess(FormatKey(m), FormatKey(n))
    {
      KeyOrderInEra(m, n);
    }
    forall n | FourDigitFirst <= n < FourDigitEnd
      ensures ParseKey(FormatKey(n)) == Some(n)
    {
      ParseFormatKeyInEra(n);
    }
  }
}
