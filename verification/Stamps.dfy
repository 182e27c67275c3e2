/** `format_stamp` (src/index.rs): timestamps as sortable names. */
module Stamps {
  import opened Text
  import opened Calendar

  const SECONDS_PER_DAY: nat := 86_400

  function DateOf(secs: nat): Date {
    CivilFromDays(secs / SECONDS_PER_DAY)
  }

  /** Timestamps start in 1970, so all three date fields are naturals. */
  lemma DateIsModern(secs: nat)
    ensures ValidDate(DateOf(secs)) && DateOf(secs).year >= 1970
  {
    hide CivilFromDays;
    DaysRoundTrip(secs / SECONDS_PER_DAY);
    Epoch();
    if secs / SECONDS_PER_DAY > 0 {
      CivilIsMonotone(0, secs / SECONDS_PER_DAY);
    }
  }

  function FormatStamp(secs: nat): Text {
    DateIsModern(secs);
    var date := DateOf(secs);
    var rem := secs % SECONDS_PER_DAY;
    Padded(date.year, 4) + ([DASH] + (Padded(date.month, 2) + ([DASH] + (Padded(date.day, 2) + (Ascii("T")
    + (Padded(rem / 3600, 2) + ([DASH] + (Padded(rem / 60 % 60, 2) + ([DASH] + (Padded(rem % 60, 2) + []))))))))))
  }

  // ---- stamps as fixed-width fields --------------------------------------

  /** The six numbers a stamp shows, most significant first. */
  function Fields(secs: nat): seq<nat> {
    DateIsModern(secs);
    var date := DateOf(secs);
    var rem := secs % SECONDS_PER_DAY;
    [date.year, date.month, date.day, rem / 3600, rem / 60 % 60, rem % 60]
  }

  function Widths6(yearWidth: nat): seq<nat> {
    [yearWidth, 2, 2, 2, 2, 2]
  }

  function Separators(): seq<Text> {
    [[DASH], [DASH], Ascii("T"), [DASH], [DASH], []]
  }

  /** Each field at its width, followed by its separator. */
  function Render(fields: seq<nat>, widths: seq<nat>, seps: seq<Text>): Text
    requires |fields| == |widths| == |seps|
  {
    if fields == [] then []
    else Fixed(fields[0], 10, widths[0]) + (seps[0] + Render(fields[1..], widths[1..], seps[1..]))
  }

  ghost predicate Fit(fields: seq<nat>, widths: seq<nat>) {
    |fields| == |widths| && forall i :: 0 <= i < |fields| ==> fields[i] < Pow(10, widths[i])
  }

  /** Rendering keeps the order of the field lists. */
  lemma {:induction false} RenderOrder(a: seq<nat>, b: seq<nat>, widths: seq<nat>, seps: seq<Text>)
    requires Fit(a, widths) && Fit(b, widths) && |seps| == |widths| && LexLess(a, b)
    ensures LexLess(Render(a, widths, seps), Render(b, widths, seps))
  {
    var p, q := Fixed(a[0], 10, widths[0]), Fixed(b[0], 10, widths[0]);
    var x, y := Render(a[1..], widths[1..], seps[1..]), Render(b[1..], widths[1..], seps[1..]);
    if a[0] < b[0] {
      FixedOrder(a[0], b[0], 10, widths[0]);
      LexDecided(p, q, seps[0] + x, seps[0] + y);
    } else {
      RenderOrder(a[1..], b[1..], widths[1..], seps[1..]);
      LexPrefix(seps[0], x, y);
      LexPrefix(p, seps[0] + x, seps[0] + y);
    }
  }

  lemma {:induction false} RenderLength(a: seq<nat>, b: seq<nat>, widths: seq<nat>, seps: seq<Text>)
    requires |a| == |b| == |widths| == |seps|
    ensures |Render(a, widths, seps)| == |Render(b, widths, seps)|
  {
    if a != [] {
      RenderLength(a[1..], b[1..], widths[1..], seps[1..]);
    }
  }

  function YearWidth(secs: nat): nat {
    DateIsModern(secs);
    |Padded(DateOf(secs).year, 4)|
  }

  lemma {:induction false} DecFits(n: nat)
    ensures n < Pow(10, |Dec(n)|)
  {
    if n >= 10 {
      DecFits(n / 10);
      assert Pow(10, |Dec(n)|) == 10 * Pow(10, |Dec(n / 10)|);
    } else {
      assert Pow(10, 1) == 10 * Pow(10, 0);
    }
  }

  lemma {:induction false} PowGrows(m: nat, n: nat)
    requires m <= n
    ensures Pow(10, m) <= Pow(10, n)
    decreases n - m
  {
    if m < n {
      PowGrows(m, n - 1);
    }
  }

  lemma FieldsFit(secs: nat)
    ensures YearWidth(secs) >= 4 && Fit(Fields(secs), Widths6(YearWidth(secs)))
  {
    hide CivilFromDays, Dec;
    DateIsModern(secs);
    var y := DateOf(secs).year;
    DecFits(y);
    PowGrows(|Dec(y)|, YearWidth(secs));
    assert Pow(10, 2) == 10 * (10 * Pow(10, 0));
    assert DateOf(secs).day <= 31;
    var rem := secs % SECONDS_PER_DAY;
    assert rem / 3600 < 24;
  }

  lemma StampIsRendered(secs: nat)
    ensures FormatStamp(secs) == Render(Fields(secs), Widths6(YearWidth(secs)), Separators())
  {
    FieldsFit(secs);
    hide CivilFromDays, Fixed, Padded, Dec, Pow;
    var f, w, s := Fields(secs), Widths6(YearWidth(secs)), Separators();
    assert Padded(f[0], 4) == Fixed(f[0], 10, w[0]) by { YearIsFixed(f[0]); }
    PaddedIsFixed(f[1], 2);
    PaddedIsFixed(f[2], 2);
    PaddedIsFixed(f[3], 2);
    PaddedIsFixed(f[4], 2);
    PaddedIsFixed(f[5], 2);
    RenderSix(f, w, s);
    assert s[5] == [];
  }

  lemma YearIsFixed(y: nat)
    ensures Padded(y, 4) == Fixed(y, 10, |Padded(y, 4)|)
  {
    DecFits(y);
    var w := |Padded(y, 4)|;
    PowGrows(|Dec(y)|, w);
    PaddedIsFixed(y, w);
  }

  lemma RenderSix(f: seq<nat>, w: seq<nat>, s: seq<Text>)
    requires |f| == |w| == |s| == 6
    ensures Render(f, w, s) ==
      Fixed(f[0], 10, w[0]) + (s[0] + (Fixed(f[1], 10, w[1]) + (s[1] + (Fixed(f[2], 10, w[2]) + (s[2]
      + (Fixed(f[3], 10, w[3]) + (s[3] + (Fixed(f[4], 10, w[4]) + (s[4] + (Fixed(f[5], 10, w[5]) + s[5]))))))))))
  {
    hide Fixed;
    hide Render;
    RenderFrom(f, w, s, 0);
    RenderFrom(f, w, s, 1);
    RenderFrom(f, w, s, 2);
    RenderFrom(f, w, s, 3);
    RenderFrom(f, w, s, 4);
    RenderFrom(f, w, s, 5);
    assert f[0..] == f && w[0..] == w && s[0..] == s;
  }

  lemma RenderFrom(f: seq<nat>, w: seq<nat>, s: seq<Text>, i: nat)
    requires |f| == |w| == |s| && i < |f|
    ensures Render(f[i..], w[i..], s[i..])
         == Fixed(f[i], 10, w[i]) + (s[i] + if i + 1 < |f| then Render(f[i + 1..], w[i + 1..], s[i + 1..]) else [])
    ensures i + 1 == |f| ==> Render(f[i..], w[i..], s[i..]) == Fixed(f[i], 10, w[i]) + s[i]
  {
    hide Fixed;
    assert f[i..][1..] == f[i + 1..] && w[i..][1..] == w[i + 1..] && s[i..][1..] == s[i + 1..];
  }

  // ---- the theorems ------------------------------------------------------

  lemma FieldsOrder(s: nat, t: nat)
    requires s < t
    ensures LexLess(Fields(s), Fields(t))
  {
    hide CivilFromDays;
    DateIsModern(s);
    DateIsModern(t);
    var f, g := Fields(s), Fields(t);
    var x, y := s % SECONDS_PER_DAY, t % SECONDS_PER_DAY;
    if s / SECONDS_PER_DAY < t / SECONDS_PER_DAY {
      CivilIsMonotone(s / SECONDS_PER_DAY, t / SECONDS_PER_DAY);
      assert Before(DateOf(s), DateOf(t));
      LexAt(f, g, if f[0] < g[0] then 0 else if f[1] < g[1] then 1 else 2);
    } else {
      assert s / SECONDS_PER_DAY == t / SECONDS_PER_DAY && x < y;
      ClockOrder(x, y);
      LexAt(f, g, if f[3] < g[3] then 3 else if f[4] < g[4] then 4 else 5);
    }
  }

  lemma ClockOrder(x: nat, y: nat)
    requires x < y
    ensures || x / 3600 < y / 3600
            || (x / 3600 == y / 3600 && x / 60 % 60 < y / 60 % 60)
            || (x / 3600 == y / 3600 && x / 60 % 60 == y / 60 % 60 && x % 60 < y % 60)
  {
    assert x / 60 / 60 == x / 3600 && y / 60 / 60 == y / 3600;
  }

  /** Lists that agree up to `i` and are ordered there are ordered. */
  lemma {:induction false} LexAt(a: seq<int>, b: seq<int>, i: nat)
    requires i < |a| && i < |b| && a[i] < b[i] && forall j :: 0 <= j < i ==> a[j] == b[j]
    ensures LexLess(a, b)
  {
    if i > 0 {
      LexAt(a[1..], b[1..], i - 1);
    }
  }

  /** Byte order of the stamps is numeric order of the seconds, whenever the
      two years have equally many digits. */
  lemma StampOrder(s: nat, t: nat)
    requires YearWidth(s) == YearWidth(t)
    ensures s < t <==> LexLess(FormatStamp(s), FormatStamp(t))
    ensures s == t <==> FormatStamp(s) == FormatStamp(t)
    ensures |FormatStamp(s)| == |FormatStamp(t)|
  {
    var a, b := FormatStamp(s), FormatStamp(t);
    assert |a| == |b| && (s < t ==> LexLess(a, b)) by { StampLess(s, t); }
    assert t < s ==> LexLess(b, a) by { StampLess(t, s); }
    hide FormatStamp;
    LexTotal(a, b);
  }

  lemma StampLess(s: nat, t: nat)
    requires YearWidth(s) == YearWidth(t)
    ensures |FormatStamp(s)| == |FormatStamp(t)|
    ensures s < t ==> LexLess(FormatStamp(s), FormatStamp(t))
  {
    hide FormatStamp, CivilFromDays, Render;
    StampIsRendered(s);
    StampIsRendered(t);
    FieldsFit(s);
    FieldsFit(t);
    RenderLength(Fields(s), Fields(t), Widths6(YearWidth(s)), Separators());
    if s < t {
      FieldsOrder(s, t);
      RenderOrder(Fields(s), Fields(t), Widths6(YearWidth(s)), Separators());
    }
  }

  /** Years before 10000 are all shown with four digits. */
  lemma FourDigitYears(secs: nat)
    requires DateOf(secs).year < 10_000
    ensures YearWidth(secs) == 4
  {
    hide CivilFromDays, Pow;
    DateIsModern(secs);
    assert Pow(10, 4) == 10_000 by { TenThousand(); }
    PaddedIsFixed(DateOf(secs).year, 4);
  }

  lemma TenThousand()
    ensures Pow(10, 4) == 10_000
  {
    assert Pow(10, 4) == 10 * Pow(10, 3) && Pow(10, 3) == 10 * Pow(10, 2) && Pow(10, 2) == 10 * Pow(10, 1);
  }

  /** The order does not survive the step to five-digit years: the last second
      of 9999 sorts after the first second of 10000. */
  lemma FiveDigitYearsSortEarly()
    ensures LexLess(FormatStamp(253_402_300_800), FormatStamp(253_402_300_799))
  {
    var s, t := 253_402_300_799, 253_402_300_800;
    YearChange();
    hide CivilFromDays, Dec;
    FirstDigit(9999, 9);
    FirstDigit(10_000, 1);
    assert FormatStamp(s)[0] == 57 && FormatStamp(t)[0] == 49;
  }

  /** Stamps of all seconds below `limit` sort by time. */
  ghost predicate SortsBelow(limit: nat) {
    forall s: nat, t: nat :: s < limit && t < limit ==> (s < t <==> LexLess(FormatStamp(s), FormatStamp(t)))
  }

  /** They do exactly up to the end of the year 9999. */
  lemma StampsSortIff(limit: nat)
    ensures SortsBelow(limit) <==> limit <= 253_402_300_800
  {
    hide FormatStamp, DateOf;
    if limit <= 253_402_300_800 {
      forall s: nat, t: nat | s < limit && t < limit ensures s < t <==> LexLess(FormatStamp(s), FormatStamp(t)) {
        BeforeYear10000(s);
        BeforeYear10000(t);
        FourDigitYears(s);
        FourDigitYears(t);
        StampOrder(s, t);
      }
    } else {
      FiveDigitYearsSortEarly();
      LexTotal(FormatStamp(253_402_300_799), FormatStamp(253_402_300_800));
    }
  }

  lemma BeforeYear10000(s: nat)
    requires s < 253_402_300_800
    ensures DateOf(s).year < 10_000
  {
    YearChange();
    if s < 253_402_300_799 {
      FieldsOrder(s, 253_402_300_799);
      LexFirst(Fields(s), Fields(253_402_300_799));
    }
  }

  lemma LexFirst(a: seq<int>, b: seq<int>)
    requires LexLess(a, b) && |a| > 0 && |b| > 0
    ensures a[0] <= b[0]
  {
  }

  lemma YearChange()
    ensures DateOf(253_402_300_799).year == 9999 && DateOf(253_402_300_800).year == 10_000
  {
    hide CivilFromDays;
    var last := Date(9999, 12, 31);
    assert DaysFromCivil(last) == 2_932_896;
    CivilRoundTrip(last);
    CivilIsTheCalendar(2_932_896);
  }

  lemma FirstDigit(n: nat, d: nat)
    requires (n == 9999 && d == 9) || (n == 10_000 && d == 1)
    ensures |Dec(n)| >= 4 && Dec(n)[0] == 48 + d
  {
    assert |Dec(n)| == |Dec(n / 10)| + 1 && Dec(n)[0] == Dec(n / 10)[0];
    assert |Dec(n / 10)| == |Dec(n / 100)| + 1 && Dec(n / 10)[0] == Dec(n / 100)[0];
    assert |Dec(n / 100)| == |Dec(n / 1000)| + 1 && Dec(n / 100)[0] == Dec(n / 1000)[0];
    assert n == 10_000 ==> Dec(10) == Dec(1) + [48];
  }

  // ---- what a stamp says -------------------------------------------------

  /** `t` is the field `n` of width `w`. */
  ghost predicate Says(t: Text, w: nat, n: nat) {
    |t| == w && Digits(t) && DecValue(t) == n
  }

  lemma TwoDigits(n: nat)
    requires n < 100
    ensures Says(Padded(n, 2), 2, n)
  {
    assert Pow(10, 2) == 10 * Pow(10, 1) && Pow(10, 1) == 10 * Pow(10, 0);
    PaddedIsFixed(n, 2);
    DecValueOfFixed(n, 2);
  }

  lemma YearDigits(y: nat)
    ensures Says(Padded(y, 4), |Padded(y, 4)|, y) && |Padded(y, 4)| >= 4
  {
    YearIsFixed(y);
    DecFits(y);
    PowGrows(|Dec(y)|, |Padded(y, 4)|);
    DecValueOfFixed(y, |Padded(y, 4)|);
  }

  /** Where the fields of a stamp are: the year, then five pairs of digits. */
  lemma StampFields(secs: nat)
    ensures var t := FormatStamp(secs); var w := |t| - 15; var date, rem := DateOf(secs), secs % 86_400;
      && w >= 4 && date.year >= 0 && Says(t[..w], w, date.year)
      && t[w] == 45 && Says(t[w + 1..w + 3], 2, date.month) && t[w + 3] == 45 && Says(t[w + 4..w + 6], 2, date.day)
      && t[w + 6] == 84 && Says(t[w + 7..w + 9], 2, rem / 3600) && t[w + 9] == 45 && Says(t[w + 10..w + 12], 2, rem / 60 % 60)
      && t[w + 12] == 45 && Says(t[w + 13..w + 15], 2, rem % 60)
  {
    hide CivilFromDays, Padded, Says, Pow;
    DateIsModern(secs);
    var date, rem := DateOf(secs), secs % 86_400;
    var t := FormatStamp(secs);
    var y, mo, d := Padded(date.year, 4), Padded(date.month, 2), Padded(date.day, 2);
    var h, mi, s := Padded(rem / 3600, 2), Padded(rem / 60 % 60, 2), Padded(rem % 60, 2);
    YearDigits(date.year);
    TwoDigits(date.month);
    TwoDigits(date.day);
    TwoDigits(rem / 3600);
    TwoDigits(rem / 60 % 60);
    TwoDigits(rem % 60);
    assert |mo| == |d| == |h| == |mi| == |s| == 2 by { SaysLength(mo, d, h, mi, s, date, rem); }
    assert t == y + [45] + mo + [45] + d + [84] + h + [45] + mi + [45] + s;
    var w := |t| - 15;
    assert w == |y| && t[..w] == y && t[w + 1..w + 3] == mo && t[w + 4..w + 6] == d;
    assert t[w + 7..w + 9] == h && t[w + 10..w + 12] == mi && t[w + 13..w + 15] == s;
  }

  lemma SaysLength(mo: Text, d: Text, h: Text, mi: Text, s: Text, date: Date, rem: nat)
    requires ValidDate(date)
    requires Says(mo, 2, date.month) && Says(d, 2, date.day)
    requires Says(h, 2, rem / 3600) && Says(mi, 2, rem / 60 % 60) && Says(s, 2, rem % 60)
    ensures |mo| == |d| == |h| == |mi| == |s| == 2
  {
  }

  /** Four or more digits, then five pairs of digits after a dash or a `T`. */
  predicate StampShaped(t: Text) {
    && |t| >= 19
    && var w := |t| - 15;
       && Digits(t[..w]) && t[w] == 45 && Digits(t[w + 1..w + 3]) && t[w + 3] == 45 && Digits(t[w + 4..w + 6])
       && t[w + 6] == 84 && Digits(t[w + 7..w + 9]) && t[w + 9] == 45 && Digits(t[w + 10..w + 12])
       && t[w + 12] == 45 && Digits(t[w + 13..w + 15])
  }

  /** The second a stamp names, read off its digits. */
  function StampValue(t: Text): int
    requires StampShaped(t)
  {
    var w := |t| - 15;
    DaysFromCivil(Date(DecValue(t[..w]), DecValue(t[w + 1..w + 3]), DecValue(t[w + 4..w + 6]))) * 86_400
    + DecValue(t[w + 7..w + 9]) * 3600 + DecValue(t[w + 10..w + 12]) * 60 + DecValue(t[w + 13..w + 15])
  }

  /** A stamp read back is its second. */
  lemma StampRoundTrip(secs: nat)
    ensures StampShaped(FormatStamp(secs)) && StampValue(FormatStamp(secs)) == secs
  {
    hide CivilFromDays, FormatStamp, DaysFromCivil, DecValue, Digits;
    StampFields(secs);
    DaysRoundTrip(secs / 86_400);
    assert Date(DateOf(secs).year, DateOf(secs).month, DateOf(secs).day) == DateOf(secs);
    ClockSplits(secs % 86_400);
  }

  lemma ClockSplits(rem: nat)
    ensures rem / 3600 * 3600 + rem / 60 % 60 * 60 + rem % 60 == rem
  {
    assert rem / 60 / 60 == rem / 3600;
  }
}
