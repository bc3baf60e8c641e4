/**
  The `YYYY-MM-DD` keys under which names are stored: Go's "2006-01-02"
  layout (the full-date form of section 5.6 of RFC 3339 for four-digit
  years), its inverse, and the byte-wise TEXT order SQLite compares them by.
 */
module DateKey {
  import opened Wrappers
  import opened Calendar

  function DigitChar(k: int): (c: char)
    requires 0 <= k < 10
    ensures '0' <= c <= '9'
    ensures c as int - '0' as int == k
  {
    ('0' as int + k) as char
  }

  /** Decimal digits of n, most significant first, with no leading zeros. */
  function Digits(n: nat): (s: string)
    ensures 1 <= |s|
  {
    if n < 10 then [DigitChar(n)] else Digits(n / 10) + [DigitChar(n % 10)]
  }

  /** Go's appendInt(b, x, width): a minus sign for negatives, the magnitude zero-padded to width digits. */
  function Padded(x: int, width: nat): (s: string)
    ensures width <= |s|
  {
    var digits := Digits(if x < 0 then -x else x);
    (if x < 0 then "-" else "")
    + (if |digits| < width then seq(width - |digits|, _ => '0') else [])
    + digits
  }

  /**
    t formatted with the layout "2006-01-02": at least ten characters, and
    for a year in 0..9999 and a month and day in 0..99 exactly ten, with the
    dashes at positions 4 and 7.
   */
  function Format(t: Date): (s: string)
    ensures 10 <= |s|
    ensures 0 <= t.year <= 9999 && 0 <= t.month <= 99 && 0 <= t.day <= 99
            ==> |s| == 10 && s[4] == '-' && s[7] == '-'
  {
    var s := Padded(t.year, 4) + "-" + Padded(t.month, 2) + "-" + Padded(t.day, 2);
    if 0 <= t.year <= 9999 && 0 <= t.month <= 99 && 0 <= t.day <= 99 then
      FourDigits(t.year);
      TwoDigits(t.month);
      TwoDigits(t.day);
      s
    else
      s
  }

  /** The four characters of a year in 0..9999. */
  lemma FourDigits(x: int)
    requires 0 <= x <= 9999
    ensures Padded(x, 4)
            == [DigitChar(x / 1000), DigitChar(x / 100 % 10), DigitChar(x / 10 % 10), DigitChar(x % 10)]
  {
    var a, b, c, d := DigitChar(x / 1000), DigitChar(x / 100 % 10), DigitChar(x / 10 % 10), DigitChar(x % 10);
    if x < 10 {
      assert Digits(x) == [d];
    } else if x < 100 {
      assert Digits(x) == [c, d];
    } else if x < 1000 {
      assert Digits(x / 10) == [b, c];
      assert Digits(x) == [b, c, d];
    } else {
      assert Digits(x / 100) == [a, b] by { assert x / 100 / 10 == x / 1000; }
      assert Digits(x / 10) == [a, b, c] by { assert x / 10 / 10 == x / 100; }
      assert Digits(x) == [a, b, c, d];
    }
  }

  /** The two characters of a month or day in 0..99. */
  lemma TwoDigits(x: int)
    requires 0 <= x <= 99
    ensures Padded(x, 2) == [DigitChar(x / 10), DigitChar(x % 10)]
  {
    if x < 10 {
      assert Digits(x) == [DigitChar(x % 10)];
    } else {
      assert Digits(x) == [DigitChar(x / 10), DigitChar(x % 10)];
    }
  }

  function DigitValue(c: char): int
  {
    c as int - '0' as int
  }

  function Number(s: string): int
  {
    if s == [] then 0 else 10 * Number(s[..|s| - 1]) + DigitValue(s[|s| - 1])
  }

  lemma NumberOfDigits(a: int, b: int, c: int, d: int)
    requires 0 <= a < 10 && 0 <= b < 10 && 0 <= c < 10 && 0 <= d < 10
    ensures Number([DigitChar(a), DigitChar(b), DigitChar(c), DigitChar(d)]) == 1000 * a + 100 * b + 10 * c + d
    ensures Number([DigitChar(c), DigitChar(d)]) == 10 * c + d
  {
    var s := [DigitChar(a), DigitChar(b), DigitChar(c), DigitChar(d)];
    assert Number(s[..1]) == a by { assert s[..1][..0] == []; }
    assert Number(s[..2]) == 10 * a + b by { assert s[..2][..1] == s[..1]; }
    assert Number(s[..3]) == 100 * a + 10 * b + c by { assert s[..3][..2] == s[..2]; }
    assert s[..4] == s;
    var t := [DigitChar(c), DigitChar(d)];
    assert Number(t[..1]) == c by { assert t[..1][..0] == []; }
  }

  predicate AllDigits(s: string)
  {
    forall i :: 0 <= i < |s| ==> '0' <= s[i] <= '9'
  }

  /** Reads back a key of the strict form DDDD-DD-DD. */
  function Parse(s: string): Option<Date>
  {
    if |s| == 10 && s[4] == '-' && s[7] == '-'
       && AllDigits(s[..4]) && AllDigits(s[5..7]) && AllDigits(s[8..])
    then Some(Date(Number(s[..4]), Number(s[5..7]), Number(s[8..])))
    else None
  }

  lemma ParsePieces(y: string, m: string, d: string)
    requires |y| == 4 && |m| == 2 && |d| == 2
    requires AllDigits(y) && AllDigits(m) && AllDigits(d)
    ensures Parse(y + "-" + m + "-" + d) == Some(Date(Number(y), Number(m), Number(d)))
  {
    var s := y + "-" + m + "-" + d;
    assert |s| == 10 && s[4] == '-' && s[7] == '-';
    assert s[..4] == y;
    assert s[5..7] == m;
    assert s[8..] == d;
  }

  /** Formatting a date of a four-digit year gives ten characters that parse back to it. */
  lemma ParseFormat(t: Date)
    requires IsValid(t) && 0 <= t.year <= 9999
    ensures |Format(t)| == 10
    ensures Parse(Format(t)) == Some(t)
  {
    FourDigits(t.year);
    TwoDigits(t.month);
    TwoDigits(t.day);
    NumberOfDigits(t.year / 1000, t.year / 100 % 10, t.year / 10 % 10, t.year % 10);
    NumberOfDigits(0, 0, t.month / 10, t.month % 10);
    NumberOfDigits(0, 0, t.day / 10, t.day % 10);
    PlaceValues(t.year);
    assert Number(Padded(t.year, 4)) == t.year;
    assert Number(Padded(t.month, 2)) == t.month;
    assert Number(Padded(t.day, 2)) == t.day;
    ParsePieces(Padded(t.year, 4), Padded(t.month, 2), Padded(t.day, 2));
  }

  lemma PlaceValues(x: int)
    requires 0 <= x <= 9999
    ensures 1000 * (x / 1000) + 100 * (x / 100 % 10) + 10 * (x / 10 % 10) + x % 10 == x
  {
    DigitArithmetic(x);
    assert x == 100 * (x / 100) + x % 100;
    assert x / 100 == 10 * (x / 1000) + x / 100 % 10;
    assert x % 100 == 10 * (x / 10 % 10) + x % 10;
  }

  /**
    SQLite's comparison of two TEXT values under its default BINARY collation:
    character by character, a proper prefix first.
   */
  predicate TextLess(a: string, b: string)
    ensures TextLess(a, b) ==> a != b
    ensures |a| < |b| && a == b[..|a|] ==> TextLess(a, b)
  {
    if a == [] then b != []
    else if b == [] then false
    else if a[0] != b[0] then a[0] < b[0]
    else TextLess(a[1..], b[1..])
  }

  /** TEXT comparison is a strict total order: asymmetric, total on distinct texts, transitive. */
  lemma {:induction false} TextLessOrder(a: string, b: string, c: string)
    ensures TextLess(a, b) ==> !TextLess(b, a)
    ensures a != b ==> TextLess(a, b) || TextLess(b, a)
    ensures TextLess(a, b) && TextLess(b, c) ==> TextLess(a, c)
    decreases |a|
  {
    if a != [] && b != [] {
      TextLessOrder(a[1..], b[1..], if c == [] then [] else c[1..]);
      assert a == [a[0]] + a[1..];
      assert b == [b[0]] + b[1..];
    }
  }

  /** Comparing texts whose first parts have equal length compares the first parts, then the rest. */
  lemma {:induction false} TextLessAppend(a1: string, a2: string, b1: string, b2: string)
    requires |a1| == |b1|
    ensures TextLess(a1 + a2, b1 + b2) <==> TextLess(a1, b1) || (a1 == b1 && TextLess(a2, b2))
    decreases |a1|
  {
    if a1 != [] {
      assert (a1 + a2)[1..] == a1[1..] + a2;
      assert (b1 + b2)[1..] == b1[1..] + b2;
      TextLessAppend(a1[1..], a2, b1[1..], b2);
      assert a1 == b1 <==> a1[0] == b1[0] && a1[1..] == b1[1..] by {
        assert a1 == [a1[0]] + a1[1..];
        assert b1 == [b1[0]] + b1[1..];
      }
    } else {
      assert a1 + a2 == a2 && b1 + b2 == b2;
    }
  }

  lemma TextLessDigit(a: int, e: int)
    requires 0 <= a < 10 && 0 <= e < 10
    ensures TextLess([DigitChar(a)], [DigitChar(e)]) <==> a < e
    ensures [DigitChar(a)] == [DigitChar(e)] <==> a == e
  {
    assert [DigitChar(a)][1..] == [];
    assert [DigitChar(e)][1..] == [];
  }

  /** Two-character digit strings compare as the numbers they spell. */
  lemma TextLessTwoDigits(x: int, y: int)
    requires 0 <= x <= 99 && 0 <= y <= 99
    ensures TextLess(Padded(x, 2), Padded(y, 2)) <==> x < y
    ensures Padded(x, 2) == Padded(y, 2) <==> x == y
  {
    TwoDigits(x);
    TwoDigits(y);
    TextLessDigit(x / 10, y / 10);
    TextLessDigit(x % 10, y % 10);
    TextLessAppend([DigitChar(x / 10)], [DigitChar(x % 10)], [DigitChar(y / 10)], [DigitChar(y % 10)]);
    assert [DigitChar(x / 10), DigitChar(x % 10)] == [DigitChar(x / 10)] + [DigitChar(x % 10)];
    assert [DigitChar(y / 10), DigitChar(y % 10)] == [DigitChar(y / 10)] + [DigitChar(y % 10)];
  }

  /** A four-digit field is its two hundreds digits followed by its two last digits. */
  lemma SplitFourDigits(x: int)
    requires 0 <= x <= 9999
    ensures Padded(x, 4) == Padded(x / 100, 2) + Padded(x % 100, 2)
  {
    DigitArithmetic(x);
    FourDigits(x);
    TwoDigits(x / 100);
    TwoDigits(x % 100);
  }

  lemma DigitArithmetic(x: int)
    requires 0 <= x <= 9999
    ensures x / 100 / 10 == x / 1000
    ensures x % 100 / 10 == x / 10 % 10
    ensures x % 100 % 10 == x % 10
  {
  }

  lemma HundredsOrder(x: int, y: int)
    requires 0 <= x && 0 <= y
    ensures x < y <==> x / 100 < y / 100 || (x / 100 == y / 100 && x % 100 < y % 100)
    ensures x == y <==> x / 100 == y / 100 && x % 100 == y % 100
  {
  }

  /** Four-character digit strings compare as the numbers they spell. */
  lemma TextLessFourDigits(x: int, y: int)
    requires 0 <= x <= 9999 && 0 <= y <= 9999
    ensures |Padded(x, 4)| == 4
    ensures TextLess(Padded(x, 4), Padded(y, 4)) <==> x < y
    ensures Padded(x, 4) == Padded(y, 4) <==> x == y
  {
    FourDigits(x);
    SplitFourDigits(x);
    SplitFourDigits(y);
    HundredsOrder(x, y);
    TextLessTwoDigits(x / 100, y / 100);
    TextLessTwoDigits(x % 100, y % 100);
    TwoDigits(x / 100);
    TwoDigits(y / 100);
    TextLessAppend(Padded(x / 100, 2), Padded(x % 100, 2), Padded(y / 100, 2), Padded(y % 100, 2));
    var xs, ys := Padded(x, 4), Padded(y, 4);
    assert xs == ys ==> xs[..2] == ys[..2] && xs[2..] == ys[2..];
  }

  lemma KeyPieces(t: Date)
    ensures Format(t) == Padded(t.year, 4) + ("-" + (Padded(t.month, 2) + ("-" + Padded(t.day, 2))))
  {
  }

  /**
    For dates of four-digit years, the TEXT order of their keys is the
    chronological order of the dates: `date > ?` selects the later days.
   */
  lemma KeyOrder(a: Date, b: Date)
    requires IsValid(a) && IsValid(b) && 0 <= a.year <= 9999 && 0 <= b.year <= 9999
    ensures TextLess(Format(a), Format(b)) <==> DayNumber(a.year, a.month, a.day) < DayNumber(b.year, b.month, b.day)
  {
    DayNumberOrder(a, b);
    KeyPieces(a);
    KeyPieces(b);
    TextLessFourDigits(a.year, b.year);
    TextLessTwoDigits(a.month, b.month);
    TextLessTwoDigits(a.day, b.day);
    TextLessFourDigits(b.year, a.year);
    TwoDigits(a.month);
    TwoDigits(b.month);
    var dashA, dashB := "-" + Padded(a.day, 2), "-" + Padded(b.day, 2);
    TextLessAppend("-", Padded(a.day, 2), "-", Padded(b.day, 2));
    TextLessAppend(Padded(a.month, 2), dashA, Padded(b.month, 2), dashB);
    TextLessAppend("-", Padded(a.month, 2) + dashA, "-", Padded(b.month, 2) + dashB);
    TextLessAppend(Padded(a.year, 4), "-" + (Padded(a.month, 2) + dashA), Padded(b.year, 4), "-" + (Padded(b.month, 2) + dashB));
  }
}
