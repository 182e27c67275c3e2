/** Byte strings: their order, number formatting, and sorting by a key. */
module Text {
  import opened Bytes

  type Text = seq<byte>

  const DASH: byte := 45
  const UNDERSCORE: byte := 95

  /** The bytes of an ASCII literal. */
  function Ascii(s: string): (t: Text)
    ensures |t| == |s|
  {
    seq(|s|, i requires 0 <= i < |s| => (s[i] as int) % 256)
  }

  // ---- lexicographic order -----------------------------------------------

  predicate LexLess(a: seq<int>, b: seq<int>) {
    if b == [] then false
    else if a == [] then true
    else if a[0] != b[0] then a[0] < b[0]
    else LexLess(a[1..], b[1..])
  }

  predicate LexLe(a: seq<int>, b: seq<int>) {
    !LexLess(b, a)
  }

  lemma {:induction false} LexTotal(a: seq<int>, b: seq<int>)
    ensures a == b || LexLess(a, b) || LexLess(b, a)
    ensures !(LexLess(a, b) && LexLess(b, a)) && (a == b ==> !LexLess(a, b))
  {
    if a != [] && b != [] {
      LexTotal(a[1..], b[1..]);
      assert a[0] == b[0] && a[1..] == b[1..] ==> a == b by { assert a == [a[0]] + a[1..] && b == [b[0]] + b[1..]; }
    }
  }

  lemma {:induction false} LexTransitive(a: seq<int>, b: seq<int>, c: seq<int>)
    requires LexLess(a, b) && LexLess(b, c)
    ensures LexLess(a, c)
  {
    if a != [] && a[0] == b[0] == c[0] {
      LexTransitive(a[1..], b[1..], c[1..]);
    }
  }

  lemma LexLeTransitive(a: seq<int>, b: seq<int>, c: seq<int>)
    requires LexLe(a, b) && LexLe(b, c)
    ensures LexLe(a, c)
  {
    LexTotal(a, b);
    LexTotal(b, c);
    LexTotal(a, c);
    if LexLess(a, b) && LexLess(b, c) {
      LexTransitive(a, b, c);
    }
  }

  /** A common prefix decides nothing. */
  lemma {:induction false} LexPrefix(p: seq<int>, a: seq<int>, b: seq<int>)
    ensures LexLess(p + a, p + b) == LexLess(a, b)
  {
    if p == [] {
      assert p + a == a && p + b == b;
    } else {
      LexPrefix(p[1..], a, b);
      assert (p + a)[1..] == p[1..] + a && (p + b)[1..] == p[1..] + b;
    }
  }

  /** Once equally long strings differ, what follows decides nothing. */
  lemma {:induction false} LexDecided(a: seq<int>, b: seq<int>, x: seq<int>, y: seq<int>)
    requires |a| == |b| && LexLess(a, b)
    ensures LexLess(a + x, b + y)
  {
    assert (a + x)[0] == a[0] && (b + y)[0] == b[0];
    if a[0] == b[0] {
      LexDecided(a[1..], b[1..], x, y);
      assert (a + x)[1..] == a[1..] + x && (b + y)[1..] == b[1..] + y;
    }
  }

  // ---- numbers -----------------------------------------------------------

  /** `0`-`9`, then `a`-`f`. */
  function DigitCode(d: nat): byte
    requires d < 16
  {
    if d < 10 then 48 + d else 87 + d
  }

  function Pow(base: nat, n: nat): (p: nat)
    requires base == 10 || base == 16
    ensures p >= 1
  {
    if n == 0 then 1 else base * Pow(base, n - 1)
  }

  /** Exactly `width` digits, most significant first. */
  function Fixed(n: nat, base: nat, width: nat): (t: Text)
    requires base == 10 || base == 16
    ensures |t| == width
    ensures forall i :: 0 <= i < |t| ==> IsDigit(t[i])
  {
    if width == 0 then [] else Fixed(n / base, base, width - 1) + [DigitCode(n % base)]
  }

  predicate IsDigit(c: byte) {
    48 <= c < 58 || 97 <= c < 103
  }

  /** Decimal digits without padding (`to_string`). */
  function Dec(n: nat): (t: Text)
    ensures |t| >= 1 && forall i :: 0 <= i < |t| ==> 48 <= t[i] < 58
  {
    if n < 10 then [DigitCode(n)] else Dec(n / 10) + [DigitCode(n % 10)]
  }

  /** `{:0width}`: zero-padded to at least `width` digits. */
  function Padded(n: nat, width: nat): (t: Text) {
    var d := Dec(n);
    if |d| >= width then d else seq(width - |d|, i => 48) + d
  }

  /** Decimal digits only. */
  predicate Digits(t: Text) {
    forall i :: 0 <= i < |t| ==> 48 <= t[i] < 58
  }

  function DecValue(t: Text): nat
    requires Digits(t)
  {
    if t == [] then 0 else 10 * DecValue(t[..|t| - 1]) + (t[|t| - 1] - 48)
  }

  function DigitValue(c: byte): nat
    requires IsDigit(c)
  {
    if c < 58 then c - 48 else c - 87
  }

  function HexValue(t: Text): nat
    requires forall i :: 0 <= i < |t| ==> IsDigit(t[i])
  {
    if t == [] then 0 else 16 * HexValue(t[..|t| - 1]) + DigitValue(t[|t| - 1])
  }

  lemma {:induction false} HexValueOfFixed(n: nat, width: nat)
    requires n < Pow(16, width)
    ensures HexValue(Fixed(n, 16, width)) == n
  {
    if width > 0 {
      var t := Fixed(n, 16, width);
      assert n / 16 < Pow(16, width - 1);
      HexValueOfFixed(n / 16, width - 1);
      assert t[..|t| - 1] == Fixed(n / 16, 16, width - 1);
    }
  }

  lemma {:induction false} DecValueOfFixed(n: nat, width: nat)
    requires n < Pow(10, width)
    ensures forall i :: 0 <= i < width ==> 48 <= Fixed(n, 10, width)[i] < 58
    ensures DecValue(Fixed(n, 10, width)) == n
  {
    if width > 0 {
      var t := Fixed(n, 10, width);
      assert n / 10 < Pow(10, width - 1);
      DecValueOfFixed(n / 10, width - 1);
      assert t[..|t| - 1] == Fixed(n / 10, 10, width - 1);
    }
  }

  /** Decimals have no leading zero. */
  lemma {:induction false} DecIsCanonical(n: nat)
    ensures Dec(n)[0] == 48 ==> n == 0
  {
    if n >= 10 {
      DecIsCanonical(n / 10);
      assert Dec(n)[0] == Dec(n / 10)[0];
    }
  }

  lemma {:induction false} DecValueOfDec(n: nat)
    ensures DecValue(Dec(n)) == n
  {
    if n >= 10 {
      DecValueOfDec(n / 10);
      var t := Dec(n);
      assert t[..|t| - 1] == Dec(n / 10);
    }
  }

  lemma DecInjective(a: nat, b: nat)
    requires Dec(a) == Dec(b)
    ensures a == b
  {
    DecValueOfDec(a);
    DecValueOfDec(b);
  }

  /** Fixed-width digits are ordered as the numbers are. */
  lemma {:induction false} FixedOrder(a: nat, b: nat, base: nat, width: nat)
    requires base == 10 || base == 16
    requires a < b < Pow(base, width)
    ensures LexLess(Fixed(a, base, width), Fixed(b, base, width))
  {
    var p, q := Fixed(a / base, base, width - 1), Fixed(b / base, base, width - 1);
    var x, y := [DigitCode(a % base)], [DigitCode(b % base)];
    Quotients(a, b, base, Pow(base, width - 1));
    if a / base < b / base {
      FixedOrder(a / base, b / base, base, width - 1);
      LexDecided(p, q, x, y);
    } else {
      LexPrefix(p, x, y);
    }
  }

  lemma Quotients(a: nat, b: nat, base: nat, p: nat)
    requires base == 10 || base == 16
    requires a < b < base * p
    ensures b / base < p
    ensures a / base < b / base || (a / base == b / base && a % base < b % base)
  {
    if base == 10 {
      assert b / 10 < p;
    } else {
      assert b / 16 < p;
    }
  }

  lemma FixedInjective(a: nat, b: nat, base: nat, width: nat)
    requires base == 10 || base == 16
    requires a < Pow(base, width) && b < Pow(base, width)
    requires Fixed(a, base, width) == Fixed(b, base, width)
    ensures a == b
  {
    LexTotal(Fixed(a, base, width), Fixed(b, base, width));
    if a < b {
      FixedOrder(a, b, base, width);
    } else if b < a {
      FixedOrder(b, a, base, width);
    }
  }

  lemma FixedSnoc(n: nat, width: nat)
    requires width >= 1
    ensures Fixed(n, 10, width) == Fixed(n / 10, 10, width - 1) + [DigitCode(n % 10)]
  {
  }

  lemma PaddedSnoc(n: nat, width: nat)
    requires width >= 2
    ensures Padded(n, width) == Padded(n / 10, width - 1) + [DigitCode(n % 10)]
  {
    if n < 10 {
      assert Dec(n) == [DigitCode(n)] && Dec(0) == [48];
    } else {
      assert Dec(n) == Dec(n / 10) + [DigitCode(n % 10)];
    }
  }

  /** Padding a number that fits gives exactly its fixed-width digits. */
  lemma {:induction false} PaddedIsFixed(n: nat, width: nat)
    requires width >= 1 && n < Pow(10, width)
    ensures Padded(n, width) == Fixed(n, 10, width)
  {
    FixedSnoc(n, width);
    if width == 1 {
      assert n < 10 by { assert Pow(10, 1) == 10 * Pow(10, 0); }
      assert Fixed(n / 10, 10, 0) == [];
    } else {
      hide Padded, Fixed;
      PaddedSnoc(n, width);
      PaddedIsFixed(n / 10, width - 1);
    }
  }

  // ---- sorting by a key --------------------------------------------------

  ghost predicate SortedBy<T>(xs: seq<T>, key: T -> seq<int>) {
    forall i, j :: 0 <= i < j < |xs| ==> LexLe(key(xs[i]), key(xs[j]))
  }

  function InsertBy<T>(x: T, xs: seq<T>, key: T -> seq<int>): (r: seq<T>) {
    if xs == [] || LexLe(key(x), key(xs[0])) then [x] + xs
    else [xs[0]] + InsertBy(x, xs[1..], key)
  }

  /** A stable sort (`sort_by`, `sort_by_key`). */
  function Sort<T>(xs: seq<T>, key: T -> seq<int>): (r: seq<T>) {
    if xs == [] then [] else InsertBy(xs[0], Sort(xs[1..], key), key)
  }

  lemma {:induction false} InsertBySorted<T>(x: T, xs: seq<T>, key: T -> seq<int>)
    requires SortedBy(xs, key)
    ensures SortedBy(InsertBy(x, xs, key), key)
    ensures multiset(InsertBy(x, xs, key)) == multiset(xs) + multiset{x}
  {
    if xs == [] {
    } else if LexLe(key(x), key(xs[0])) {
      forall j | 0 <= j < |xs| ensures LexLe(key(x), key(xs[j])) {
        if j > 0 {
          LexLeTransitive(key(x), key(xs[0]), key(xs[j]));
        }
      }
    } else {
      InsertBySorted(x, xs[1..], key);
      var rest := InsertBy(x, xs[1..], key);
      LexTotal(key(x), key(xs[0]));
      forall j | 0 <= j < |rest| ensures LexLe(key(xs[0]), key(rest[j])) {
        assert rest[j] in multiset(rest);
        assert rest[j] == x || rest[j] in xs[1..];
      }
      assert xs == [xs[0]] + xs[1..];
    }
  }

  lemma {:induction false} SortIsSortedPermutation<T>(xs: seq<T>, key: T -> seq<int>)
    ensures SortedBy(Sort(xs, key), key) && multiset(Sort(xs, key)) == multiset(xs)
    ensures |Sort(xs, key)| == |xs| && forall x :: x in Sort(xs, key) <==> x in xs
  {
    if xs != [] {
      SortIsSortedPermutation(xs[1..], key);
      InsertBySorted(xs[0], Sort(xs[1..], key), key);
      assert xs == [xs[0]] + xs[1..];
    }
    assert |multiset(Sort(xs, key))| == |multiset(xs)|;
    forall x ensures x in Sort(xs, key) <==> x in xs {
      assert x in Sort(xs, key) <==> x in multiset(Sort(xs, key));
    }
  }
}
