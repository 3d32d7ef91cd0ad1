/** What an edited item looks like, character by character (section 8.7 of the Simula
    Standard): the sign, the groups, the mark and the digits on both sides of it. */
module ItemShapes {
  import opened Prelude
  import opened Powers
  import opened NumericItems
  import opened ItemGrammar
  import opened RoundTrips

  /** No leading zeros. */
  lemma {:induction false} DecimalPlain(n: nat)
    ensures Decimal(n)[0] == '0' <==> n == 0
    ensures n == 0 ==> Decimal(n) == "0"
  {
    if n >= 10 {
      DecimalPlain(n / 10);
      assert Decimal(n)[0] == Decimal(n / 10)[0];
    }
  }

  /** An integer item is a minus sign, if the value is negative, and its digits without
      leading zeros. */
  lemma IntegerShape(value: int)
    ensures var t := IntegerText(value);
            && (t[0] == '-' <==> value < 0)
            && var digits := if value < 0 then t[1..] else t;
               && digits != "" && AllDigits(digits) && Value(digits) == Abs(value)
               && (digits[0] == '0' ==> digits == "0")
  {
    var d := Decimal(Abs(value));
    DecimalValue(Abs(value));
    DecimalPlain(Abs(value));
    hide Decimal, Value;
    assert ("-" + d)[1..] == d && "" + d == d;
  }

  lemma MinusDigits(value: int, g: string)
    ensures DigitsOf(Minus(value) + g) == DigitsOf(g)
  {
    DigitsAppend(Minus(value), g);
    assert "-"[..0] == "";
  }

  /** Grouping puts spaces in, no other blanks. */
  lemma {:induction false} GroupBlanks(d: string)
    requires AllDigits(d)
    ensures forall k :: 0 <= k < |GroupWhole(d)| ==> Digit(GroupWhole(d)[k]) || GroupWhole(d)[k] == ' '
  {
    if |d| > 3 {
      GroupBlanks(d[..|d| - 3]);
    }
  }

  lemma {:induction false} TailBlanks(d: string)
    requires AllDigits(d)
    ensures forall k :: 0 <= k < |GroupTail(d)| ==> Digit(GroupTail(d)[k]) || GroupTail(d)[k] == ' '
  {
    if |d| > 3 {
      TailBlanks(d[3..]);
    }
  }

  /** The part in front of the mark: the digits of a number, in threes from the right. */
  lemma WholeShape(value: int, n: nat)
    ensures var t := Minus(value) + GroupWhole(Decimal(n));
            && DigitsOf(t) == Decimal(n) && Value(DigitsOf(t)) == n
            && (forall k :: |Minus(value)| <= k < |t| ==>
                  (Digit(t[k]) || t[k] == ' ') && (t[k] == ' ' <==> (|t| - k) % 4 == 0))
  {
    hide Decimal, Value, DigitsOf, GroupWhole;
    DecimalValue(n);
    GroupWholeDigits(Decimal(n));
    MinusDigits(value, GroupWhole(Decimal(n)));
    GroupBlanks(Decimal(n));
    SpacesBefore(Minus(value), Decimal(n));
  }

  lemma SpacesBefore(sign: string, d: string)
    requires AllDigits(d)
    ensures var t := sign + GroupWhole(d);
            forall k :: |sign| <= k < |t| ==>
              (Digit(t[k]) || t[k] == ' ') && (t[k] == ' ' <==> (|t| - k) % 4 == 0)
  {
    hide GroupWhole, Digit;
    GroupBlanks(d);
    var t := sign + GroupWhole(d);
    forall k | |sign| <= k < |t|
      ensures (Digit(t[k]) || t[k] == ' ') && (t[k] == ' ' <==> (|t| - k) % 4 == 0)
    {
      assert t[k] == GroupWhole(d)[k - |sign|];
      WholeInThrees(d, k - |sign|);
    }
  }

  /** Without its last digits a padded number is a quotient. */
  lemma {:induction false} PaddedPrefix(n: nat, places: nat, k: nat)
    requires n < Pow10(places) && k <= places
    ensures Value(Padded(n, places)[..k]) == n / Pow10(places - k)
  {
    if k == places {
      assert Padded(n, places)[..k] == "" + Padded(n, places);
      PaddedValue("", n, places);
    } else {
      PaddedPrefix(n / 10, places - 1, k);
      assert Padded(n, places)[..k] == Padded(n / 10, places - 1)[..k];
      TenthOf(n, Pow10(places - 1 - k));
    }
  }

  lemma TenthOf(n: nat, p: nat)
    requires p > 0
    ensures n / 10 / p == n / (10 * p)
  {
    var m := n / 10;
    var q, r, d := m / p, m % p, n % 10;
    DivMod(m, p);
    assert 10 * (q * p) == q * (10 * p);
    ModUnique(n, q, 10 * r + d, 10 * p);
  }

  /** The part behind the mark: the leading digits of the fraction, in threes from the
      left. */
  lemma TailShape(abs: nat, places: nat)
    requires ScaleOf(places) > 0
    ensures var t := GroupTail(FractionDigits(abs, places));
            && TailThrees(t) && |DigitsOf(t)| == Shown(places)
            && Value(DigitsOf(t)) == Fraction(abs, places) / Pow10(places - Shown(places))
  {
    hide Padded, Pow10, ScaleOf, Fraction, Value, GroupTail;
    var d := FractionDigits(abs, places);
    GroupTailDigits(d);
    TailBlanks(d);
    forall k | 0 <= k < |GroupTail(d)| ensures GroupTail(d)[k] == ' ' <==> k % 4 == 3 {
      TailInThrees(d, k);
    }
    PaddedPrefix(Fraction(abs, places), places, Shown(places));
  }

  /** Where the mark of a grouped item stands. */
  function MarkPlace(value: int, places: nat): nat
    requires ScaleOf(places) > 0
  {
    |Minus(value)| + if Whole(Abs(value), places) == 0 then 0 else |GroupWhole(Decimal(Whole(Abs(value), places)))|
  }

  lemma Unmarked(value: int, g: string)
    requires g != "" && forall k :: 0 <= k < |g| ==> Digit(g[k]) || g[k] == ' '
    ensures var t := Minus(value) + g;
            (t[0] == '-' <==> value < 0) && forall k :: 0 <= k < |t| ==> !Mark(t[k])
  {
    var t := Minus(value) + g;
    forall k | |Minus(value)| <= k < |t| ensures !Mark(t[k]) && t[k] != '-' {
      assert t[k] == g[k - |Minus(value)|];
    }
  }

  /** A grouped item without places: no mark at all, and the groups of the value. */
  lemma NoPlacesShape(value: int, mark: char)
    requires ScaleOf(0) > 0
    ensures var t := GroupedText(value, 0, mark);
            && t != "" && (t[0] == '-' <==> value < 0)
            && Value(DigitsOf(t)) == Abs(value)
            && (forall k :: 0 <= k < |t| ==> !Mark(t[k]))
            && (forall k :: |Minus(value)| <= k < |t| ==>
                  (Digit(t[k]) || t[k] == ' ') && (t[k] == ' ' <==> (|t| - k) % 4 == 0))
  {
    hide GroupWhole, Decimal, Value, DigitsOf, Minus, Mark, Digit;
    WholeShape(value, Abs(value));
    GroupWholeDigits(Decimal(Abs(value)));
    GroupBlanks(Decimal(Abs(value)));
    Unmarked(value, GroupWhole(Decimal(Abs(value))));
  }

  /** What an item shows in front of the mark and behind it. */
  lemma TwoParts(abs: nat, places: nat)
    requires ScaleOf(places) > 0
    ensures var scale := Pow10(places) % 0x1_0000_0000_0000_0000;
            scale > 0 && Whole(abs, places) == abs / scale && Fraction(abs, places) == abs % scale
            && (abs < scale ==> Whole(abs, places) == 0)
    ensures places <= 19 ==> Pow10(places) % 0x1_0000_0000_0000_0000 == Pow10(places)
  {
    WholeNone(abs, ScaleOf(places), Whole(abs, places), Fraction(abs, places));
    ScaleIs(places);
  }

  /** The one mark of `t` is `mark` at `m`, and a minus sign stands in front or nowhere. */
  ghost predicate MarkOnly(t: string, m: nat, mark: char, value: int) {
    && m < |t| && t[m] == mark && (forall k :: 0 <= k < |t| && k != m ==> !Mark(t[k]))
    && (t[0] == '-' <==> value < 0) && (forall k :: 0 < k < |t| ==> t[k] != '-')
  }

  /** Behind the sign there are spaces between threes of digits, counted from the mark
      on both sides, and no other blanks. */
  ghost predicate InThrees(t: string, m: nat, value: int) {
    && m < |t|
    && (forall k :: |Minus(value)| <= k < |t| && k != m ==> Digit(t[k]) || t[k] == ' ')
    && (forall k :: |Minus(value)| <= k < m ==> (t[k] == ' ' <==> (m - k) % 4 == 0))
    && (forall k :: m < k < |t| ==> (t[k] == ' ' <==> (k - m) % 4 == 0))
  }

  ghost predicate FrontThrees(front: string, value: int) {
    && Minus(value) <= front
    && forall k :: |Minus(value)| <= k < |front| ==>
         (Digit(front[k]) || front[k] == ' ') && (front[k] == ' ' <==> (|front| - k) % 4 == 0)
  }

  ghost predicate TailThrees(tail: string) {
    forall k :: 0 <= k < |tail| ==> (Digit(tail[k]) || tail[k] == ' ') && (tail[k] == ' ' <==> k % 4 == 3)
  }

  /** A mark between two parts that have none. */
  lemma TwoSides(value: int, front: string, mark: char, tail: string)
    requires Mark(mark) && FrontThrees(front, value) && TailThrees(tail)
    ensures MarkOnly(front + [mark] + tail, |front|, mark, value)
  {
    var t := front + [mark] + tail;
    forall k | 0 <= k < |t| && k != |front|
      ensures !Mark(t[k]) && (k > 0 ==> t[k] != '-')
    {
      if k < |front| {
        assert t[k] == front[k];
      } else {
        assert t[k] == tail[k - |front| - 1];
      }
    }
    assert front != "" ==> t[0] == front[0];
  }

  lemma Spaces(value: int, front: string, mark: char, tail: string)
    requires FrontThrees(front, value) && TailThrees(tail)
    ensures InThrees(front + [mark] + tail, |front|, value)
  {
    hide Digit;
    var t := front + [mark] + tail;
    forall k | |front| < k < |t|
      ensures (Digit(t[k]) || t[k] == ' ') && (t[k] == ' ' <==> (k - |front|) % 4 == 0)
    {
      assert t[k] == tail[k - |front| - 1];
    }
    forall k | |Minus(value)| <= k < |front|
      ensures (Digit(t[k]) || t[k] == ' ') && (t[k] == ' ' <==> (|front| - k) % 4 == 0)
    {
      assert t[k] == front[k];
    }
  }

  /** The two parts of an item with places. */
  lemma PartsOf(value: int, places: nat, mark: char) returns (front: string, tail: string)
    requires ScaleOf(places) > 0 && places > 0
    ensures GroupedText(value, places, mark) == front + [mark] + tail && MarkPlace(value, places) == |front|
    ensures var whole := Whole(Abs(value), places);
            front == if whole == 0 then Minus(value) else Minus(value) + GroupWhole(Decimal(whole))
    ensures tail == GroupTail(FractionDigits(Abs(value), places))
  {
    hide GroupWhole, GroupTail, Decimal, FractionDigits, Whole, ScaleOf;
    var whole := Whole(Abs(value), places);
    front := if whole == 0 then Minus(value) else Minus(value) + GroupWhole(Decimal(whole));
    tail := GroupTail(FractionDigits(Abs(value), places));
  }

  lemma FrontShape(value: int, whole: nat)
    ensures var front := if whole == 0 then Minus(value) else Minus(value) + GroupWhole(Decimal(whole));
            FrontThrees(front, value) && Value(DigitsOf(front)) == whole && (whole == 0 ==> DigitsOf(front) == "")
  {
    hide GroupWhole, Decimal, Digit;
    if whole == 0 {
      MinusDigits(value, "");
      assert Minus(value) + "" == Minus(value);
    } else {
      hide DigitsOf, Value;
      WholeShape(value, whole);
    }
  }

  /** A grouped item with places has one mark, the one given, with digits in threes on
      both sides of it. */
  lemma MarkedShape(value: int, places: nat, mark: char)
    requires ScaleOf(places) > 0 && places > 0 && Mark(mark)
    ensures MarkOnly(GroupedText(value, places, mark), MarkPlace(value, places), mark, value)
    ensures InThrees(GroupedText(value, places, mark), MarkPlace(value, places), value)
  {
    hide *;
    var front, tail := PartsOf(value, places, mark);
    FrontShape(value, Whole(Abs(value), places));
    TailShape(Abs(value), places);
    TwoSides(value, front, mark, tail);
    Spaces(value, front, mark, tail);
  }

  /** As many digits stand behind the mark as there are places, but 31 at most. The two
      sides are the quotient and the remainder by the power of ten, as it comes out in 64
      bits, the remainder without the digits not shown; in front of the mark there is no
      digit if the quotient is 0. */
  lemma MarkedSides(value: int, places: nat, mark: char)
    requires ScaleOf(places) > 0 && places > 0 && Mark(mark)
    ensures var t, m := GroupedText(value, places, mark), MarkPlace(value, places);
            var shown, scale := if places < 31 then places else 31, Pow10(places) % 0x1_0000_0000_0000_0000;
            && m < |t| && scale > 0 && |DigitsOf(t[m + 1..])| == shown
            && Value(DigitsOf(t[m + 1..])) == Abs(value) % scale / Pow10(places - shown)
            && Value(DigitsOf(t[..m])) == Abs(value) / scale
            && (Abs(value) < scale ==> DigitsOf(t[..m]) == "")
  {
    hide *;
    var front, tail := PartsOf(value, places, mark);
    FrontShape(value, Whole(Abs(value), places));
    TailShape(Abs(value), places);
    TwoParts(Abs(value), places);
    ShownIs(places);
    var t := front + [mark] + tail;
    assert t[..|front|] == front && t[|front| + 1..] == tail;
  }

  lemma ShownIs(places: nat)
    ensures Shown(places) == if places < 31 then places else 31
  {
  }

  /** With up to 19 places they are the quotient and the remainder by the power of ten. */
  lemma MarkedNumber(value: int, places: nat, mark: char)
    requires ScaleOf(places) > 0 && 0 < places <= 19 && Mark(mark)
    ensures var t, m := GroupedText(value, places, mark), MarkPlace(value, places);
            && m < |t| && |DigitsOf(t[m + 1..])| == places
            && Value(DigitsOf(t[m + 1..])) == Abs(value) % Pow10(places)
            && Value(DigitsOf(t[..m])) == Abs(value) / Pow10(places)
            && (Abs(value) < Pow10(places) ==> DigitsOf(t[..m]) == "")
  {
    hide *;
    MarkedSides(value, places, mark);
    TwoParts(Abs(value), places);
    NoMorePlaces();
  }

  lemma NoMorePlaces()
    ensures Pow10(0) == 1
  {
  }

  /** The characters that digits are. */
  lemma DigitIs(d: nat, c: char)
    requires d < 10
    ensures DigitOf(d) == "0123456789"[d]
    ensures Digit(c) <==> exists k :: 0 <= k < 10 && c == "0123456789"[k]
  {
    if Digit(c) {
      assert c == "0123456789"[DigitValue(c)];
    }
  }
}
