/** Human-readable period labels such as "19 Şubat 2024 - 18 Mart 2024":
    Python's `str` of an integer, the fixed Turkish month-name table, and the
    proof that a label determines the calendar days it was built from. */
module Labels {
  import opened Calendar

  /** The month-name table `aylar` (1 = Ocak ... 12 = Aralık). */
  function MonthName(m: int): (name: string)
    requires 1 <= m <= 12
    ensures |name| > 0 && ' ' !in name && '-' !in name
  {
    if m == 1 then "Ocak"
    else if m == 2 then "Şubat"
    else if m == 3 then "Mart"
    else if m == 4 then "Nisan"
    else if m == 5 then "Mayıs"
    else if m == 6 then "Haziran"
    else if m == 7 then "Temmuz"
    else if m == 8 then "Ağustos"
    else if m == 9 then "Eylül"
    else if m == 10 then "Ekim"
    else if m == 11 then "Kasım"
    else "Aralık"
  }

  /** Different months have different names. */
  lemma MonthNameInjective(m1: int, m2: int)
    requires 1 <= m1 <= 12 && 1 <= m2 <= 12
    requires MonthName(m1) == MonthName(m2)
    ensures m1 == m2
  {
  }

  predicate IsDigit(c: char) {
    '0' as int <= c as int <= '9' as int
  }

  function DigitChar(n: int): (c: char)
    requires 0 <= n < 10
    ensures IsDigit(c) && c as int - '0' as int == n
  {
    ('0' as int + n) as char
  }

  /** Decimal digits of a natural number, most significant first, without
      leading zeros (Python's `str(n)` for `n >= 0`). */
  function NatText(n: nat): (s: string)
    ensures |s| > 0
    ensures forall i :: 0 <= i < |s| ==> IsDigit(s[i])
    ensures |s| > 1 ==> s[0] != '0'
    decreases n
  {
    if n < 10 then [DigitChar(n)] else NatText(n / 10) + [DigitChar(n % 10)]
  }

  /** The value of a string of decimal digits: the decoder for `NatText`. */
  function DigitsValue(s: string): nat
    requires forall i :: 0 <= i < |s| ==> IsDigit(s[i])
  {
    if |s| == 0 then 0
    else
      var last := s[|s| - 1];
      assert IsDigit(last);
      DigitsValue(s[..|s| - 1]) * 10 + (last as int - '0' as int)
  }

  /** Reading the digits back gives the number that was written. */
  lemma {:induction false} NatTextRoundTrip(n: nat)
    ensures DigitsValue(NatText(n)) == n
    decreases n
  {
    if n >= 10 {
      NatTextRoundTrip(n / 10);
      var s := NatText(n);
      assert s[..|s| - 1] == NatText(n / 10);
    }
  }

  /** Python's `str(n)` for any integer: a minus sign before the digits of a negative number. */
  function IntText(n: int): (s: string)
    ensures |s| > 0 && ' ' !in s
    ensures s[0] == '-' <==> n < 0
  {
    if n < 0 then "-" + NatText(-n) else NatText(n)
  }

  /** Different integers are written differently. */
  lemma IntTextInjective(a: int, b: int)
    requires IntText(a) == IntText(b)
    ensures a == b
  {
    if a < 0 {
      assert IntText(a)[1..] == NatText(-a);
      assert IntText(b)[1..] == NatText(-b);
      NatTextRoundTrip(-a);
      NatTextRoundTrip(-b);
    } else {
      NatTextRoundTrip(a);
      NatTextRoundTrip(b);
    }
  }

  /** Words separated by single spaces: the f-string `f"{a} {b} {c}"` is `Join([a, b, c])`. */
  function Join(ws: seq<string>): string {
    if |ws| == 0 then ""
    else if |ws| == 1 then ws[0]
    else ws[0] + " " + Join(ws[1..])
  }

  /** `f"{d.day} {aylar[d.month]} {d.year}"` */
  function DateText(d: DateTime): string
    requires 1 <= d.month <= 12
  {
    Join([IntText(d.day), MonthName(d.month), IntText(d.year)])
  }

  /** `f"{bas_str} - {bit_str}"`: the label of the period from `start` to `end`. */
  function Label(start: DateTime, end: DateTime): string
    requires 1 <= start.month <= 12 && 1 <= end.month <= 12
  {
    Join([DateText(start), "-", DateText(end)])
  }

  predicate NoSpaces(ws: seq<string>) {
    forall i :: 0 <= i < |ws| ==> ' ' !in ws[i]
  }

  /** Joining two non-empty word lists with a space joins their concatenation. */
  lemma {:induction false} JoinAppend(a: seq<string>, b: seq<string>)
    requires |a| > 0 && |b| > 0
    ensures Join(a) + " " + Join(b) == Join(a + b)
    decreases |a|
  {
    assert (a + b)[1..] == a[1..] + b;
    if |a| > 1 {
      JoinAppend(a[1..], b);
    }
  }

  /** A space-free prefix ends at the first space, so it is determined by the string. */
  lemma SplitAtSpace(a: string, u: string, b: string, v: string)
    requires ' ' !in a && ' ' !in b
    requires a + " " + u == b + " " + v
    ensures a == b && u == v
  {
    var x, y := a + " " + u, b + " " + v;
    assert forall i :: 0 <= i < |a| ==> x[i] == a[i];
    assert forall i :: 0 <= i < |b| ==> y[i] == b[i];
    assert x[|a|] == ' ' && y[|b|] == ' ';
    assert |a| == |b|;
    assert a == x[..|a|] && b == y[..|b|];
    assert u == x[|a| + 1..] && v == y[|b| + 1..];
  }

  /** Joining equally many space-free words loses nothing: the words can be read back. */
  lemma {:induction false} JoinInjective(ws1: seq<string>, ws2: seq<string>)
    requires |ws1| == |ws2| && NoSpaces(ws1) && NoSpaces(ws2)
    requires Join(ws1) == Join(ws2)
    ensures ws1 == ws2
    decreases |ws1|
  {
    if |ws1| >= 2 {
      SplitAtSpace(ws1[0], Join(ws1[1..]), ws2[0], Join(ws2[1..]));
      JoinInjective(ws1[1..], ws2[1..]);
      assert ws1 == [ws1[0]] + ws1[1..];
      assert ws2 == [ws2[0]] + ws2[1..];
    }
  }

  /** A label is the seven words day, month, year, "-", day, month, year. */
  lemma LabelWords(start: DateTime, end: DateTime)
    requires 1 <= start.month <= 12 && 1 <= end.month <= 12
    ensures Label(start, end) == Join([IntText(start.day), MonthName(start.month), IntText(start.year), "-",
                                       IntText(end.day), MonthName(end.month), IntText(end.year)])
  {
    var s3 := [IntText(start.day), MonthName(start.month), IntText(start.year)];
    var e3 := [IntText(end.day), MonthName(end.month), IntText(end.year)];
    assert Join(["-", DateText(end)]) == "-" + " " + DateText(end);
    JoinAppend(["-"], e3);
    assert Join(["-"] + e3) == Join(["-", DateText(end)]);
    JoinAppend(s3, ["-"] + e3);
    assert Label(start, end) == DateText(start) + " " + Join(["-", DateText(end)]);
    assert s3 + (["-"] + e3) == [IntText(start.day), MonthName(start.month), IntText(start.year), "-",
                                 IntText(end.day), MonthName(end.month), IntText(end.year)];
  }

  /** Two periods get the same label only if their starts fall on the same
      calendar day and so do their ends. */
  lemma LabelDeterminesDays(s1: DateTime, e1: DateTime, s2: DateTime, e2: DateTime)
    requires 1 <= s1.month <= 12 && 1 <= e1.month <= 12
    requires 1 <= s2.month <= 12 && 1 <= e2.month <= 12
    requires Label(s1, e1) == Label(s2, e2)
    ensures s1.year == s2.year && s1.month == s2.month && s1.day == s2.day
    ensures e1.year == e2.year && e1.month == e2.month && e1.day == e2.day
  {
    var w1 := [IntText(s1.day), MonthName(s1.month), IntText(s1.year), "-",
               IntText(e1.day), MonthName(e1.month), IntText(e1.year)];
    var w2 := [IntText(s2.day), MonthName(s2.month), IntText(s2.year), "-",
               IntText(e2.day), MonthName(e2.month), IntText(e2.year)];
    LabelWords(s1, e1);
    LabelWords(s2, e2);
    JoinInjective(w1, w2);
    assert w1[0] == w2[0] && w1[2] == w2[2] && w1[4] == w2[4] && w1[6] == w2[6];
    IntTextInjective(s1.day, s2.day);
    IntTextInjective(s1.year, s2.year);
    IntTextInjective(e1.day, e2.day);
    IntTextInjective(e1.year, e2.year);
    MonthNameInjective(s1.month, s2.month);
    MonthNameInjective(e1.month, e2.month);
  }
}
