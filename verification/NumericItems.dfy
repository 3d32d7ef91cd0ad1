/** The numeric items of text.c as strings: what editing writes (section 8.7 of the
    Simula Standard), what de-editing reads (section 8.5), and that they invert one
    another. */
module NumericItems {
  import opened Prelude
  import opened Powers

  predicate Blank(c: char) {
    c == ' ' || c == '\t'
  }

  predicate Digit(c: char) {
    '0' <= c <= '9'
  }

  /** The two characters that can be the program's decimal mark; reading takes either. */
  predicate Mark(c: char) {
    c == '.' || c == ','
  }

  predicate Sign(c: char) {
    c == '+' || c == '-'
  }

  // ------------------------------------------------------------- numbers

  function DigitOf(d: nat): (c: char)
    requires d < 10
    ensures Digit(c) && DigitValue(c) == d
  {
    '0' + d as char
  }

  function DigitValue(c: char): (d: nat)
    requires Digit(c)
    ensures d < 10
  {
    c as int - '0' as int
  }

  /** The number that a string of digits stands for. */
  function Value(t: string): nat
    requires forall k :: 0 <= k < |t| ==> Digit(t[k])
  {
    if t == "" then 0
    else 10 * Value(t[..|t| - 1]) + DigitValue(t[|t| - 1])
  }

  function Pow10(n: nat): (p: nat)
    ensures p > 0
  {
    if n == 0 then 1 else 10 * Pow10(n - 1)
  }

  /** Decimal digits without leading zeros. */
  function Decimal(n: nat): (t: string)
    ensures |t| > 0 && forall k :: 0 <= k < |t| ==> Digit(t[k])
  {
    if n < 10 then [DigitOf(n)] else Decimal(n / 10) + [DigitOf(n % 10)]
  }

  /** Exactly `places` digits, leading zeros included. */
  function Padded(n: nat, places: nat): (t: string)
    requires n < Pow10(places)
    ensures |t| == places && forall k :: 0 <= k < |t| ==> Digit(t[k])
  {
    if places == 0 then "" else Padded(n / 10, places - 1) + [DigitOf(n % 10)]
  }

  lemma {:induction false} DecimalValue(n: nat)
    ensures Value(Decimal(n)) == n
  {
    if n >= 10 {
      DecimalValue(n / 10);
      assert Decimal(n)[..|Decimal(n)| - 1] == Decimal(n / 10);
    }
  }

  /** Digits read one after another: the first string, scaled, and the second. */
  lemma {:induction false} PaddedValue(a: string, n: nat, places: nat)
    requires n < Pow10(places) && forall k :: 0 <= k < |a| ==> Digit(a[k])
    ensures Value(a + Padded(n, places)) == Value(a) * Pow10(places) + n
  {
    var t := a + Padded(n, places);
    if places == 0 {
      assert t == a;
    } else {
      PaddedValue(a, n / 10, places - 1);
      assert t[..|t| - 1] == a + Padded(n / 10, places - 1);
      TenTimes(Value(a), Pow10(places - 1), n / 10);
    }
  }

  lemma TenTimes(v: nat, p: nat, n: nat)
    ensures 10 * (v * p + n) == v * (10 * p) + 10 * n
  {
  }

  lemma {:induction false} ValueAppend(a: string, b: string)
    requires (forall k :: 0 <= k < |a| ==> Digit(a[k])) && forall k :: 0 <= k < |b| ==> Digit(b[k])
    ensures Value(a + b) == Value(a) * Pow10(|b|) + Value(b)
  {
    if b == "" {
      assert a + b == a;
    } else {
      var init := b[..|b| - 1];
      ValueAppend(a, init);
      assert (a + b)[..|a + b| - 1] == a + init;
      TenTimes(Value(a), Pow10(|init|), Value(init));
    }
  }

  /** The leading digits of a padded number stand for no more than it. */
  lemma {:induction false} LeadingDigits(n: nat, places: nat, k: nat)
    requires n < Pow10(places) && k <= places
    ensures Value(Padded(n, places)[..k]) <= if k == places then n else n / 10
  {
    if k == places {
      assert Padded(n, places)[..k] == "" + Padded(n, places);
      PaddedValue("", n, places);
    } else {
      LeadingDigits(n / 10, places - 1, k);
      assert Padded(n, places)[..k] == Padded(n / 10, places - 1)[..k];
    }
  }

  lemma {:induction false} DecimalLength(n: nat, digits: nat)
    requires digits > 0 && n < Pow10(digits)
    ensures |Decimal(n)| <= digits
  {
    assert Pow10(1) == 10;
    if n >= 10 {
      DecimalLength(n / 10, digits - 1);
    }
  }

  /** The power of ten that a value is split by, as it comes out in 64 bits: it wraps
      around beyond 19 places and is 0 from 64 on. */
  function ScaleOf(places: nat): (scale: nat)
    ensures scale <= Pow10(places) && scale < UINT64
  {
    Pow10(places) % UINT64
  }

  /** `abs` split at the decimal mark. */
  function Whole(abs: nat, places: nat): nat
    requires ScaleOf(places) > 0
  {
    DivMod(abs, ScaleOf(places));
    abs / ScaleOf(places)
  }

  function Fraction(abs: nat, places: nat): (f: nat)
    requires ScaleOf(places) > 0
    ensures f < ScaleOf(places) && abs == Whole(abs, places) * ScaleOf(places) + f
  {
    DivMod(abs, ScaleOf(places));
    abs % ScaleOf(places)
  }

  /** How many digits the buffer for the fraction holds. */
  const FRACTION_MAX: nat := 31

  function Shown(places: nat): nat {
    if places < FRACTION_MAX then places else FRACTION_MAX
  }

  /** The digits behind the mark, as many as are shown. */
  function FractionDigits(abs: nat, places: nat): (t: string)
    requires ScaleOf(places) > 0
    ensures |t| == Shown(places) && forall k :: 0 <= k < |t| ==> Digit(t[k])
  {
    Padded(Fraction(abs, places), places)[..Shown(places)]
  }

  // ------------------------------------------------------------- groups of three

  /** Groups counted from the right, for the part before the mark. */
  function GroupWhole(d: string): string {
    if |d| <= 3 then d else GroupWhole(d[..|d| - 3]) + " " + d[|d| - 3..]
  }

  /** Groups counted from the left, for the part behind the mark. */
  function GroupTail(d: string): string {
    if |d| <= 3 then d else d[..3] + " " + GroupTail(d[3..])
  }

  /** The digits of a text, in order. */
  function DigitsOf(t: string): (d: string)
    ensures forall k :: 0 <= k < |d| ==> Digit(d[k])
  {
    if t == "" then ""
    else DigitsOf(t[..|t| - 1]) + if Digit(t[|t| - 1]) then [t[|t| - 1]] else ""
  }

  /** Groups as reading them takes them: digits with blanks anywhere between. */
  predicate Groups(t: string) {
    && |t| > 0 && Digit(t[0]) && Digit(t[|t| - 1])
    && forall k :: 0 <= k < |t| ==> Digit(t[k]) || Blank(t[k])
  }

  lemma {:induction false} DigitsAppend(a: string, b: string)
    ensures DigitsOf(a + b) == DigitsOf(a) + DigitsOf(b)
  {
    if b == "" {
      assert a + b == a;
    } else {
      assert (a + b)[..|a + b| - 1] == a + b[..|b| - 1];
      DigitsAppend(a, b[..|b| - 1]);
    }
  }

  lemma {:induction false} DigitsAll(d: string)
    requires forall k :: 0 <= k < |d| ==> Digit(d[k])
    ensures DigitsOf(d) == d
  {
    if d != "" {
      DigitsAll(d[..|d| - 1]);
    }
  }

  lemma DigitsBlank()
    ensures DigitsOf(" ") == ""
  {
    assert " "[..0] == "";
  }

  /** Grouping only puts blanks between the digits. */
  lemma {:induction false} GroupWholeDigits(d: string)
    requires forall k :: 0 <= k < |d| ==> Digit(d[k])
    ensures DigitsOf(GroupWhole(d)) == d && |GroupWhole(d)| <= 2 * |d|
    ensures d != "" ==> Groups(GroupWhole(d))
  {
    if |d| <= 3 {
      DigitsAll(d);
    } else {
      var a, b := d[..|d| - 3], d[|d| - 3..];
      GroupWholeDigits(a);
      DigitsAll(b);
      Spaced(GroupWhole(a), b);
      assert a + b == d;
    }
  }

  lemma {:induction false} GroupTailDigits(d: string)
    requires forall k :: 0 <= k < |d| ==> Digit(d[k])
    ensures DigitsOf(GroupTail(d)) == d && |GroupTail(d)| <= 2 * |d|
    ensures d != "" ==> Groups(GroupTail(d))
  {
    if |d| <= 3 {
      DigitsAll(d);
    } else {
      var a, b := d[..3], d[3..];
      GroupTailDigits(b);
      DigitsAll(a);
      Spaced(a, GroupTail(b));
      assert a + b == d;
    }
  }

  lemma Spaced(g: string, h: string)
    requires Groups(g) && Groups(h)
    ensures Groups(g + " " + h) && DigitsOf(g + " " + h) == DigitsOf(g) + DigitsOf(h)
  {
    DigitsAppend(g + " ", h);
    DigitsAppend(g, " ");
    DigitsBlank();
  }

  /** The blanks stand between threes counted from the right, or from the left. */
  lemma {:induction false} WholeInThrees(d: string, k: nat)
    requires (forall i :: 0 <= i < |d| ==> Digit(d[i])) && k < |GroupWhole(d)|
    ensures GroupWhole(d)[k] == ' ' <==> (|GroupWhole(d)| - k) % 4 == 0
  {
    if |d| > 3 {
      var h, b := GroupWhole(d[..|d| - 3]), d[|d| - 3..];
      assert GroupWhole(d) == h + " " + b;
      if k < |h| {
        WholeInThrees(d[..|d| - 3], k);
      } else if k > |h| {
        assert GroupWhole(d)[k] == b[k - |h| - 1];
      }
    } else {
      assert GroupWhole(d)[k] == d[k];
    }
  }

  lemma {:induction false} TailInThrees(d: string, k: nat)
    requires (forall i :: 0 <= i < |d| ==> Digit(d[i])) && k < |GroupTail(d)|
    ensures GroupTail(d)[k] == ' ' <==> k % 4 == 3
  {
    if |d| > 3 {
      var h, a := GroupTail(d[3..]), d[..3];
      assert GroupTail(d) == a + " " + h;
      if k >= 4 {
        TailInThrees(d[3..], k - 4);
        assert GroupTail(d)[k] == h[k - 4];
      } else if k < 3 {
        assert GroupTail(d)[k] == a[k];
      }
    } else {
      assert GroupTail(d)[k] == d[k];
    }
  }

  // ------------------------------------------------------------- editing

  function Minus(value: int): string {
    if value < 0 then "-" else ""
  }

  function IntegerText(value: int): string {
    Minus(value) + Decimal(Abs(value))
  }

  /** A grouped item; nothing stands before the mark when the value is below 1. */
  function Unsigned(abs: nat, places: nat, mark: char): string
    requires ScaleOf(places) > 0
  {
    if places == 0 then GroupWhole(Decimal(abs))
    else
      (if Whole(abs, places) == 0 then "" else GroupWhole(Decimal(Whole(abs, places))))
      + [mark] + GroupTail(FractionDigits(abs, places))
  }

  function GroupedText(value: int, places: nat, mark: char): string
    requires ScaleOf(places) > 0
  {
    Minus(value) + Unsigned(Abs(value), places, mark)
  }

  function Repeat(c: char, n: nat): (t: string)
    ensures |t| == n && forall k :: 0 <= k < n ==> t[k] == c
  {
    seq(n, _ => c)
  }

  /** An item at the right end of a field of `width` characters, or asterisks when it
      does not fit. */
  function Field(item: string, width: nat): (f: string)
    ensures |f| == width
  {
    if |item| > width then Repeat('*', width) else Repeat(' ', width - |item|) + item
  }

  // ------------------------------------------------------------- de-editing

  datatype Parsed = NoItem | OutOfRange | Item(value: int, consumed: nat)

  function SkipBlanks(s: string, i: nat): (j: nat)
    requires i <= |s|
    ensures i <= j <= |s| && (j < |s| ==> !Blank(s[j])) && forall k :: i <= k < j ==> Blank(s[k])
    decreases |s| - i
  {
    if i < |s| && Blank(s[i]) then SkipBlanks(s, i + 1) else i
  }

  function SkipDigits(s: string, i: nat): (j: nat)
    requires i <= |s|
    ensures i <= j <= |s| && (j < |s| ==> !Digit(s[j])) && forall k :: i <= k < j ==> Digit(s[k])
    decreases |s| - i
  {
    if i < |s| && Digit(s[i]) then SkipDigits(s, i + 1) else i
  }

  predicate DigitAt(s: string, i: int) {
    0 <= i < |s| && Digit(s[i])
  }

  predicate MarkAt(s: string, i: int) {
    0 <= i < |s| && Mark(s[i])
  }

  /** Past further groups, each set off by blanks. */
  function SkipMore(s: string, i: nat): (j: nat)
    requires i <= |s|
    ensures i <= j <= |s|
    decreases |s| - i
  {
    var look := SkipBlanks(s, i);
    if look > i && DigitAt(s, look) then SkipMore(s, SkipDigits(s, look)) else i
  }

  /** Past the groups that start at `i`. */
  function SkipGroups(s: string, i: nat): (j: nat)
    requires i <= |s|
    ensures i <= j <= |s|
  {
    SkipMore(s, SkipDigits(s, i))
  }

  /** Past blanks, an optional sign and blanks. */
  function SignPart(s: string): (j: nat)
    ensures j <= |s|
  {
    var i := SkipBlanks(s, 0);
    SkipBlanks(s, if i < |s| && Sign(s[i]) then i + 1 else i)
  }

  function Negative(s: string): bool {
    var i := SkipBlanks(s, 0);
    i < |s| && s[i] == '-'
  }

  const TOKEN_MAX: nat := 64

  function Signed(negative: bool, abs: nat): int {
    if negative then -(abs as int) else abs
  }

  function IntegerItem(s: string): Parsed {
    var start := SignPart(s);
    var end := SkipDigits(s, start);
    if end == start then NoItem
    else if (if Negative(s) then 1 else 0) + end - start >= TOKEN_MAX then NoItem
    else
      var v := Signed(Negative(s), Value(s[start..end]));
      if InInt64(v) then Item(v, end) else OutOfRange
  }

  /** The end of a grouped item that starts at `start`, if there is one: groups, and a
      mark with groups immediately behind it. */
  function GroupedEnd(s: string, start: nat): (end: Option<nat>)
    requires start <= |s|
    ensures end.Some? ==> start <= end.value <= |s|
  {
    var first := if MarkAt(s, start) then start + 1 else start;
    if !DigitAt(s, first) then None
    else
      var end := SkipGroups(s, first);
      Some(if MarkAt(s, end) && DigitAt(s, end + 1) then SkipGroups(s, end + 1) else end)
  }

  function GroupedItem(s: string): Parsed {
    var start := SignPart(s);
    match GroupedEnd(s, start)
    case None => NoItem
    case Some(end) =>
      var digits := DigitsOf(s[start..end]);
      if |digits| >= TOKEN_MAX then NoItem
      else if Value(digits) > INT64_MAX then OutOfRange
      else Item(Signed(Negative(s), Value(digits)), end)
  }

  // ------------------------------------------------------------- what reading takes

  /** No group follows. */
  predicate NoMore(s: string, k: nat)
    requires k <= |s|
  {
    !DigitAt(s, SkipBlanks(s, k))
  }

  lemma {:induction false} SkipMoreIs(s: string, m: nat, k: nat)
    requires 0 < m <= k <= |s| && NoMore(s, k) && Digit(s[k - 1])
    requires m < |s| ==> !Digit(s[m])
    requires forall i :: m <= i < k ==> Digit(s[i]) || Blank(s[i])
    ensures SkipMore(s, m) == k
    decreases k - m
  {
    var look := SkipBlanks(s, m);
    if m < k {
      assert look <= k - 1;
      SkipMoreIs(s, SkipDigits(s, look), k);
    }
  }

  /** Reading groups takes the longest ones there are. */
  lemma SkipGroupsIff(s: string, i: nat, k: nat)
    requires i < k <= |s| && Digit(s[i])
    ensures SkipGroups(s, i) == k <==> Groups(s[i..k]) && NoMore(s, k)
  {
    if Groups(s[i..k]) && NoMore(s, k) {
      assert s[i..k][k - i - 1] == s[k - 1];
      forall j | i <= j < k ensures Digit(s[j]) || Blank(s[j]) { assert s[j] == s[i..k][j - i]; }
      SkipMoreIs(s, SkipDigits(s, i), k);
    }
    if SkipGroups(s, i) == k {
      SkipMoreOk(s, i, SkipDigits(s, i));
    }
  }

  lemma {:induction false} SkipMoreOk(s: string, i: nat, m: nat)
    requires i < m <= |s| && Digit(s[i]) && Digit(s[m - 1]) && (m < |s| ==> !Digit(s[m]))
    requires forall j :: i <= j < m ==> Digit(s[j]) || Blank(s[j])
    ensures var k := SkipMore(s, m); Groups(s[i..k]) && NoMore(s, k)
    decreases |s| - m
  {
    var look := SkipBlanks(s, m);
    if look > m && DigitAt(s, look) {
      SkipMoreOk(s, i, SkipDigits(s, look));
    }
  }

  lemma MarkEndsGroups(s: string, k: nat)
    requires k < |s| && Mark(s[k])
    ensures NoMore(s, k)
  {
  }

  lemma GroupsFirst(s: string, i: nat, k: nat)
    requires i <= k <= |s| && Groups(s[i..k])
    ensures i < k && Digit(s[i])
  {
    assert s[i..k][0] == s[i];
  }
}
