/** What editing writes, de-editing reads back. */
module RoundTrips {
  import opened Prelude
  import opened Powers
  import opened NumericItems
  import opened ItemGrammar

  /** A field that an item fits, as blanks and the item. */
  lemma FieldFits(value: int, body: string, width: nat)
    requires |Minus(value) + body| <= width
    ensures var pad := width - |Minus(value) + body|;
            Field(Minus(value) + body, width) == Repeat(' ', pad) + Minus(value) + body
  {
  }

  lemma StarsRead(item: string, width: nat)
    requires |item| > width
    ensures IntegerItem(Field(item, width)) == NoItem && GroupedItem(Field(item, width)) == NoItem
  {
    var s := Field(item, width);
    assert SkipBlanks(s, 0) == 0;
    assert SignPart(s) == 0;
  }

  lemma MaxDigits()
    ensures Pow10(19) == 10000000000000000000
  {
    assert Pow10(9) == 1000000000;
    assert Pow10(10) == 10 * Pow10(9) && Pow10(11) == 10 * Pow10(10) && Pow10(12) == 10 * Pow10(11);
    assert Pow10(13) == 10 * Pow10(12) && Pow10(14) == 10 * Pow10(13) && Pow10(15) == 10 * Pow10(14);
    assert Pow10(16) == 10 * Pow10(15) && Pow10(17) == 10 * Pow10(16) && Pow10(18) == 10 * Pow10(17);
  }

  lemma PowMonotone(a: nat, b: nat)
    requires a <= b
    ensures Pow10(a) <= Pow10(b)
    decreases b - a
  {
    if a < b {
      PowMonotone(a + 1, b);
    }
  }

  lemma {:induction false} TwosAndFives(n: nat)
    ensures Pow10(n) == Pow2(n) * Pow(5, n) && Pow(5, n) % 2 == 1
  {
    if n > 0 {
      TwosAndFives(n - 1);
      OddProduct(5, Pow(5, n - 1));
      TwiceFive(Pow2(n - 1), Pow(5, n - 1));
    }
  }

  lemma TwiceFive(a: int, b: int)
    ensures 10 * (a * b) == 2 * a * (5 * b)
  {
  }

  lemma WordIsPower()
    ensures Pow2(64) == UINT64
  {
    assert Pow2(4) == 16;
    hide Pow2;
    Pow2Add(4, 4);
    assert Pow2(8) == 0x100;
    Pow2Add(8, 8);
    assert Pow2(16) == 0x1_0000;
    Pow2Add(16, 16);
    assert Pow2(32) == 0x1_0000_0000;
    Pow2Add(32, 32);
  }

  /** The scale is the power of ten as it comes out in 64 bits: the power itself up to 19
      places, and 0 exactly from 64 on. */
  lemma ScaleIs(places: nat)
    ensures ScaleOf(places) == Pow10(places) % 0x1_0000_0000_0000_0000
    ensures places <= 19 ==> ScaleOf(places) == Pow10(places)
    ensures ScaleOf(places) == 0 <==> places >= 64
  {
    hide Pow10, Pow, Pow2;
    if places <= 19 {
      MaxDigits();
      PowMonotone(places, 19);
      Below(Pow10(places));
    }
    WordIsPower();
    TwosAndFives(places);
    DividesIff(64, places, Pow(5, places));
  }

  lemma Below(x: nat)
    requires x < UINT64
    ensures x % UINT64 == x
  {
  }

  /** What PUTINT writes, GETINT reads, for every 64-bit integer; a field too narrow
      holds no item. */
  lemma IntegerRoundTrip(value: int, width: nat)
    requires InInt64(value)
    ensures IntegerItem(Field(IntegerText(value), width))
            == if |IntegerText(value)| <= width then Item(value, width) else NoItem
  {
    hide IntegerItem, Value, Decimal, Field, Repeat;
    var body, blanks := Decimal(Abs(value)), width - |IntegerText(value)|;
    if blanks < 0 {
      StarsRead(IntegerText(value), width);
    } else {
      FieldFits(value, body, width);
      DecimalValue(Abs(value));
      MaxDigits();
      DecimalLength(Abs(value), 19);
      IntegerReads(Repeat(' ', blanks), Minus(value), "", body, "");
      assert Repeat(' ', blanks) + Minus(value) + "" + body + "" == Repeat(' ', blanks) + Minus(value) + body;
    }
  }

  /** The digits of an edited item. */
  function ItemDigits(abs: nat, places: nat): string
    requires ScaleOf(places) > 0
  {
    (if places > 0 && Whole(abs, places) == 0 then "" else Decimal(Whole(abs, places)))
    + FractionDigits(abs, places)
  }

  lemma UnsignedDigits(abs: nat, places: nat, mark: char)
    requires Mark(mark) && ScaleOf(places) > 0
    ensures DigitsOf(Unsigned(abs, places, mark)) == ItemDigits(abs, places)
  {
    hide DigitsOf, GroupWhole, GroupTail, Decimal, Whole, FractionDigits;
    var whole, f := Whole(abs, places), FractionDigits(abs, places);
    GroupWholeDigits(Decimal(whole));
    if places == 0 {
      NoPlaces(abs);
    } else {
      GroupTailDigits(f);
      DigitsAll("");
      MarkedDigits(if whole == 0 then "" else GroupWhole(Decimal(whole)), if whole == 0 then "" else Decimal(whole),
                   mark, f);
    }
  }

  lemma NoPlaces(abs: nat)
    ensures ScaleOf(0) == 1 && Whole(abs, 0) == abs && FractionDigits(abs, 0) == ""
  {
  }

  lemma ItemDigitsFit(abs: nat, places: nat)
    requires abs < Pow10(19) && ScaleOf(places) > 0
    ensures |ItemDigits(abs, places)| <= 19 + Shown(places)
    ensures |Decimal(Whole(abs, places))| <= 19
  {
    WholeSmaller(abs, places);
    DecimalLength(Whole(abs, places), 19);
  }

  /** Up to 19 places they are the digits of the number itself. */
  lemma ItemValue(abs: nat, places: nat)
    requires places <= 19 && ScaleOf(places) > 0
    ensures AllDigits(ItemDigits(abs, places)) && Value(ItemDigits(abs, places)) == abs
  {
    hide Decimal, Value, Whole, Fraction, Padded, Pow10, ScaleOf;
    ScaleIs(places);
    var whole, fraction := Whole(abs, places), Fraction(abs, places);
    var f := Padded(fraction, places);
    assert FractionDigits(abs, places) == f;
    DecimalValue(whole);
    if places == 0 {
      NoPlaces(abs);
      assert ItemDigits(abs, 0) == Decimal(whole);
    } else if whole == 0 {
      NothingBefore(fraction, places);
    } else {
      PaddedValue(Decimal(whole), fraction, places);
    }
  }

  /** Beyond 19 places they still are, exactly when nothing stands before the mark and
      every digit is shown, or the number is 0; otherwise they stand for another number,
      and one out of range if something stands before the mark. */
  lemma ItemValueWide(abs: nat, places: nat)
    requires places > 19 && ScaleOf(places) > 0
    ensures AllDigits(ItemDigits(abs, places))
    ensures Whole(abs, places) > 0 ==> Value(ItemDigits(abs, places)) > INT64_MAX
    ensures Whole(abs, places) == 0 ==>
              (Value(ItemDigits(abs, places)) == abs <==> places <= FRACTION_MAX || abs == 0)
    ensures Whole(abs, places) == 0 <==> abs < ScaleOf(places)
  {
    hide Decimal, Value, Whole, Fraction, Padded, Pow10, ScaleOf;
    var whole, fraction, f := Whole(abs, places), Fraction(abs, places), FractionDigits(abs, places);
    WholeNone(abs, ScaleOf(places), whole, fraction);
    if whole > 0 {
      DecimalValue(whole);
      ValueAppend(Decimal(whole), f);
      MaxDigits();
      PowMonotone(19, |f|);
      AtLeastOnce(whole, Pow10(|f|));
    } else {
      LeadingDigits(fraction, places, Shown(places));
      assert ItemDigits(abs, places) == f;
      if places <= FRACTION_MAX {
        assert f == Padded(fraction, places) == "" + Padded(fraction, places);
        NothingBefore(fraction, places);
      }
    }
  }

  lemma WholeNone(abs: nat, scale: nat, whole: nat, fraction: nat)
    requires abs == whole * scale + fraction && fraction < scale
    ensures whole == 0 <==> abs < scale
  {
    AtLeastOnce(whole, scale);
  }

  lemma NothingBefore(n: nat, places: nat)
    requires n < Pow10(places)
    ensures Value("" + Padded(n, places)) == n
  {
    PaddedValue("", n, places);
  }

  lemma MarkedDigits(g: string, w: string, mark: char, f: string)
    requires Mark(mark) && DigitsOf(g) == w && DigitsOf(GroupTail(f)) == f
    ensures DigitsOf(g + [mark] + GroupTail(f)) == w + f
  {
    DigitsAppend(g + [mark], GroupTail(f));
    DigitsAppend(g, [mark]);
    assert [mark][..0] == "";
  }

  lemma WholeSmaller(abs: nat, places: nat)
    requires ScaleOf(places) > 0
    ensures Whole(abs, places) <= abs
  {
    QuotientSmaller(Whole(abs, places), ScaleOf(places), Fraction(abs, places));
  }

  lemma QuotientSmaller(q: nat, p: nat, f: nat)
    requires p > 0
    ensures q <= q * p + f
  {
  }

  /** An edited item is of the form that reading takes. */
  lemma UnsignedForm(abs: nat, places: nat, mark: char) returns (w: string, m: string, t: string)
    requires Mark(mark) && ScaleOf(places) > 0
    ensures Unsigned(abs, places, mark) == w + m + t && GroupedForm(w, m, t)
  {
    hide GroupWhole, GroupTail, Decimal, Whole, FractionDigits, Groups;
    if places == 0 {
      w, m, t := GroupWhole(Decimal(abs)), "", "";
      GroupWholeDigits(Decimal(abs));
    } else {
      var whole := Whole(abs, places);
      w := if whole == 0 then "" else GroupWhole(Decimal(whole));
      m, t := [mark], GroupTail(FractionDigits(abs, places));
      GroupWholeDigits(Decimal(whole));
      GroupTailDigits(FractionDigits(abs, places));
    }
  }

  /** A field that holds an edited item is read as the number its digits stand for. */
  lemma EditedReads(value: int, places: nat, mark: char, width: nat)
    requires InInt64(value) && ScaleOf(places) > 0 && Mark(mark) && AllDigits(ItemDigits(Abs(value), places))
    ensures var read := Value(ItemDigits(Abs(value), places));
            GroupedItem(Field(GroupedText(value, places, mark), width))
            == if |GroupedText(value, places, mark)| > width then NoItem
               else if read > INT64_MAX then OutOfRange
               else Item(Signed(value < 0, read), width)
  {
    hide Field, Repeat, Unsigned, DigitsOf, GroupedItem, GroupedForm, Value, ItemDigits, ScaleOf;
    var text, abs := GroupedText(value, places, mark), Abs(value);
    if |text| > width {
      StarsRead(text, width);
    } else {
      var body, blanks := Unsigned(abs, places, mark), Repeat(' ', width - |text|);
      var w, m, t := UnsignedForm(abs, places, mark);
      FieldFits(value, body, width);
      MaxDigits();
      UnsignedDigits(abs, places, mark);
      ItemDigitsFit(abs, places);
      FormStarts(w, m, t);
      GroupedReads(blanks, Minus(value), "", w, m, t, "");
      assert blanks + Minus(value) + "" + (w + m + t) + "" == blanks + Minus(value) + body;
    }
  }

  /** What PUTFRAC writes with up to 19 places, GETFRAC reads back: exactly when the field
      is wide enough and the value is not the least 64-bit integer, whatever the mark. */
  lemma GroupedRoundTrip(value: int, places: nat, mark: char, width: nat)
    requires InInt64(value) && places <= 19 && ScaleOf(places) > 0 && Mark(mark)
    ensures GroupedItem(Field(GroupedText(value, places, mark), width))
            == if |GroupedText(value, places, mark)| > width then NoItem
               else if value == INT64_MIN then OutOfRange
               else Item(value, width)
  {
    hide GroupedItem, Field, GroupedText, Value, ItemDigits, ScaleOf;
    ItemValue(Abs(value), places);
    EditedReads(value, places, mark, width);
  }

  /** With 20 to 63 places it is read back exactly when besides the value is below the
      wrapped scale and all its digits are shown. */
  lemma WideRoundTrip(value: int, places: nat, mark: char, width: nat)
    requires InInt64(value) && places > 19 && ScaleOf(places) > 0 && Mark(mark)
    ensures GroupedItem(Field(GroupedText(value, places, mark), width)) == Item(value, width)
            <==> && |GroupedText(value, places, mark)| <= width && value > INT64_MIN
                 && Abs(value) < ScaleOf(places) && (places <= FRACTION_MAX || value == 0)
  {
    hide GroupedItem, Field, GroupedText, Value, ItemDigits, ScaleOf, Whole;
    ItemValueWide(Abs(value), places);
    EditedReads(value, places, mark, width);
  }

  /** No item outgrows the buffers it is formed in. */
  lemma TextFits(value: int, places: nat, mark: char)
    requires InInt64(value) && ScaleOf(places) > 0
    ensures |Decimal(Whole(Abs(value), places))| <= 19
    ensures |GroupWhole(Decimal(Whole(Abs(value), places)))| <= 38
    ensures |GroupTail(FractionDigits(Abs(value), places))| <= 62
    ensures |IntegerText(value)| <= 20
  {
    hide ScaleOf, GroupWhole, GroupTail;
    MaxDigits();
    ItemDigitsFit(Abs(value), places);
    DecimalLength(Abs(value), 19);
    GroupWholeDigits(Decimal(Whole(Abs(value), places)));
    GroupTailDigits(FractionDigits(Abs(value), places));
  }
}
