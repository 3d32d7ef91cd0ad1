/** De-editing against the grammar of section 8.5 of the Simula Standard: every text of
    the form of an item is read as that item, whatever stands behind it. */
module ItemGrammar {
  import opened Prelude
  import opened NumericItems

  predicate AllBlank(t: string) {
    forall k :: 0 <= k < |t| ==> Blank(t[k])
  }

  predicate AllDigits(t: string) {
    forall k :: 0 <= k < |t| ==> Digit(t[k])
  }

  /** BLANKS [SIGN] BLANKS. */
  predicate SignText(b: string, sign: string, c: string) {
    AllBlank(b) && AllBlank(c) && (sign == "" || sign == "+" || sign == "-")
  }

  lemma {:induction false} SkipShift(x: string, t: string, i: nat)
    requires i <= |t|
    ensures SkipBlanks(x + t, |x| + i) == |x| + SkipBlanks(t, i)
    decreases |t| - i
  {
    if i < |t| && Blank(t[i]) {
      SkipShift(x, t, i + 1);
    }
  }

  lemma {:induction false} SkipAll(x: string, b: string, t: string)
    requires AllBlank(b)
    ensures SkipBlanks(x + b + t, |x|) == |x + b| + SkipBlanks(t, 0)
    decreases |b|
  {
    var s := x + b + t;
    if b == "" {
      assert s == x + t;
      SkipShift(x, t, 0);
    } else {
      assert s == (x + b[..1]) + b[1..] + t;
      SkipAll(x + b[..1], b[1..], t);
    }
  }

  predicate Plain(tail: string) {
    tail == "" || (!Blank(tail[0]) && !Sign(tail[0]))
  }

  lemma SignReads(b: string, sign: string, c: string, tail: string)
    requires SignText(b, sign, c) && Plain(tail)
    ensures var s := b + sign + c + tail;
            SignPart(s) == |b + sign + c| && Negative(s) == (sign == "-")
  {
    if sign == "" {
      assert b + sign + c == b + c;
      NoSignReads(b + c, tail);
    } else {
      OneSignReads(b, sign, c, tail);
    }
  }

  lemma NoSignReads(b: string, tail: string)
    requires AllBlank(b) && Plain(tail)
    ensures SignPart(b + tail) == |b| && !Negative(b + tail)
  {
    var s := b + tail;
    SkipAll("", b, tail);
    assert s == "" + b + tail && SkipBlanks(tail, 0) == 0;
    assert |b| < |s| ==> s[|b|] == tail[0];
  }

  lemma OneSignReads(b: string, sign: string, c: string, tail: string)
    requires SignText(b, sign, c) && sign != "" && Plain(tail)
    ensures SignPart(b + sign + c + tail) == |b + sign + c| && Negative(b + sign + c + tail) == (sign == "-")
  {
    var s, t := b + sign + c + tail, sign + c + tail;
    SkipAll("", b, t);
    SkipAll(b + sign, c, tail);
    assert s == "" + b + t && t[0] == sign[0] && s[|b|] == sign[0];
    assert SkipBlanks(t, 0) == 0 && SkipBlanks(tail, 0) == 0;
  }

  /** INTEGER-ITEM: SIGN-PART DIGITS. */
  lemma IntegerReads(b: string, sign: string, c: string, digits: string, rest: string)
    requires SignText(b, sign, c) && digits != "" && AllDigits(digits) && !DigitAt(rest, 0)
    ensures var v := Signed(sign == "-", Value(digits));
            IntegerItem(b + sign + c + digits + rest)
            == if (if sign == "-" then 1 else 0) + |digits| >= TOKEN_MAX then NoItem
               else if InInt64(v) then Item(v, |b + sign + c + digits|)
               else OutOfRange
  {
    var pre, s := b + sign + c, b + sign + c + digits + rest;
    assert s == b + sign + c + (digits + rest);
    SignReads(b, sign, c, digits + rest);
    var end := |pre| + |digits|;
    assert s[|pre|..end] == digits;
    forall k | |pre| <= k < end ensures Digit(s[k]) { assert s[k] == digits[k - |pre|]; }
    assert end < |s| ==> s[end] == rest[0];
    assert SkipDigits(s, |pre|) == end;
  }

  /** What reading takes for the sign part is one, and what is behind it is no blank. */
  lemma SignPartOf(s: string) returns (b: string, sign: string, c: string)
    ensures SignText(b, sign, c) && b + sign + c == s[..SignPart(s)]
  {
    var i := SkipBlanks(s, 0);
    b := s[..i];
    if i < |s| && Sign(s[i]) {
      sign, c := [s[i]], s[i + 1..SignPart(s)];
    } else {
      sign, c := "", "";
      assert SignPart(s) == i;
    }
  }

  /** Only such texts are read: whatever yields an integer item starts with a sign part
      and all the digits behind it. */
  lemma IntegerItemOf(s: string) returns (b: string, sign: string, c: string, digits: string, rest: string)
    requires IntegerItem(s) != NoItem
    ensures s == b + sign + c + digits + rest
    ensures SignText(b, sign, c) && digits != "" && AllDigits(digits) && !DigitAt(rest, 0)
  {
    b, sign, c := SignPartOf(s);
    var end := SkipDigits(s, SignPart(s));
    digits, rest := s[SignPart(s)..end], s[end..];
  }

  // ------------------------------------------------------------- grouped items

  /** GROUPS, GROUPS with a mark and GROUPS behind them, or a mark with GROUPS. */
  predicate GroupedForm(w: string, mark: string, t: string) {
    if mark == "" then Groups(w) && t == ""
    else |mark| == 1 && Mark(mark[0]) && (w == "" || Groups(w)) && Groups(t)
  }

  /** What follows does not carry the item on: no further group, nor, unless a mark
      behind groups has been read, a mark with digits. */
  predicate Ends(rest: string, w: string, mark: string) {
    && !DigitAt(rest, SkipBlanks(rest, 0))
    && (w == "" || mark == "" ==> !(MarkAt(rest, 0) && DigitAt(rest, 1)))
  }

  lemma RestEnds(x: string, rest: string, w: string, mark: string)
    ensures NoMore(x + rest, |x|) <==> !DigitAt(rest, SkipBlanks(rest, 0))
    ensures MarkAt(x + rest, |x|) && DigitAt(x + rest, |x| + 1) <==> MarkAt(rest, 0) && DigitAt(rest, 1)
  {
    SkipShift(x, rest, 0);
  }

  /** Where reading stops that has begun with the groups from `first` to `e`. */
  lemma EndAfterFirst(s: string, first: nat, e: nat)
    requires first <= e <= |s| && Groups(s[first..e])
    ensures var k := SkipGroups(s, first);
            var end := if MarkAt(s, k) && DigitAt(s, k + 1) then SkipGroups(s, k + 1) else k;
            end == e <==> NoMore(s, e) && !(MarkAt(s, e) && DigitAt(s, e + 1))
  {
    var k := SkipGroups(s, first);
    GroupsFirst(s, first, e);
    SkipGroupsIff(s, first, e);
    assert k < e ==> s[k] == s[first..e][k - first];
    hide SkipGroups, NoMore;
  }

  lemma EndAfterGroups(s: string, start: nat, e: nat)
    requires start <= e <= |s| && Groups(s[start..e])
    ensures GroupedEnd(s, start) == Some(e) <==> NoMore(s, e) && !(MarkAt(s, e) && DigitAt(s, e + 1))
  {
    hide SkipGroups, Groups, NoMore;
    GroupsFirst(s, start, e);
    EndAfterFirst(s, start, e);
  }

  lemma EndAfterFraction(s: string, start: nat, k: nat, e: nat)
    requires start <= k < e <= |s| && (k == start || Groups(s[start..k])) && Mark(s[k]) && Groups(s[k + 1..e])
    ensures GroupedEnd(s, start) == Some(e)
            <==> NoMore(s, e) && (k == start ==> !(MarkAt(s, e) && DigitAt(s, e + 1)))
  {
    hide SkipGroups, Groups, NoMore;
    GroupsFirst(s, k + 1, e);
    if k > start {
      GroupsFirst(s, start, k);
      MarkEndsGroups(s, k);
      SkipGroupsIff(s, start, k);
      SkipGroupsIff(s, k + 1, e);
    } else {
      EndAfterFirst(s, k + 1, e);
    }
  }

  /** An item is read to its end and no further exactly when what follows does not carry
      it on. */
  lemma EndOfForm(pre: string, w: string, mark: string, t: string, rest: string)
    requires GroupedForm(w, mark, t)
    ensures GroupedEnd(pre + (w + mark + t) + rest, |pre|) == Some(|pre + (w + mark + t)|) <==> Ends(rest, w, mark)
  {
    hide Groups, GroupedEnd, NoMore;
    var x, s := pre + (w + mark + t), pre + (w + mark + t) + rest;
    RestEnds(x, rest, w, mark);
    if mark == "" {
      assert s[|pre|..|x|] == w;
      EndAfterGroups(s, |pre|, |x|);
    } else {
      var k := |pre| + |w|;
      assert s[k] == mark[0] && s[k + 1..|x|] == t && s[|pre|..k] == w;
      EndAfterFraction(s, |pre|, k, |x|);
    }
  }

  lemma MarkDropped(mark: char)
    requires Mark(mark)
    ensures DigitsOf([mark]) == ""
  {
    assert [mark][..0] == "";
  }

  lemma FormStarts(w: string, mark: string, t: string)
    requires GroupedForm(w, mark, t)
    ensures w + mark + t != "" && !Blank((w + mark + t)[0]) && !Sign((w + mark + t)[0])
    ensures DigitsOf(w + mark + t) == DigitsOf(w) + DigitsOf(t)
  {
    hide DigitsOf;
    assert (w + mark + t)[0] == if w == "" then mark[0] else w[0];
    DigitsAppend(w + mark, t);
    DigitsAppend(w, mark);
    NoDigits();
    if mark != "" {
      assert mark == [mark[0]];
      MarkDropped(mark[0]);
    }
  }

  lemma NoDigits()
    ensures DigitsOf("") == ""
  {
  }

  /** GROUPED-ITEM: its digits are one number, whatever the blanks and the mark. */
  lemma GroupedReads(b: string, sign: string, c: string, w: string, mark: string, t: string, rest: string)
    requires SignText(b, sign, c) && GroupedForm(w, mark, t) && Ends(rest, w, mark)
    ensures var digits := DigitsOf(w) + DigitsOf(t);
            GroupedItem(b + sign + c + (w + mark + t) + rest)
            == if |digits| >= TOKEN_MAX then NoItem
               else if Value(digits) > INT64_MAX then OutOfRange
               else Item(Signed(sign == "-", Value(digits)), |b + sign + c + (w + mark + t)|)
  {
    hide SignPart, Negative, GroupedEnd, DigitsOf, Groups, SignText, GroupedForm, Ends;
    var pre, body := b + sign + c, w + mark + t;
    var s := pre + body + rest;
    FormStarts(w, mark, t);
    assert s == b + sign + c + (body + rest) && (body + rest)[0] == body[0];
    SignReads(b, sign, c, body + rest);
    EndOfForm(pre, w, mark, t, rest);
    assert s[|pre|..|pre + body|] == body;
  }

  /** An item whose number fits is read as itself, to its end, exactly when what follows
      does not carry it on. */
  lemma GroupedReadsIff(b: string, sign: string, c: string, w: string, mark: string, t: string, rest: string)
    requires SignText(b, sign, c) && GroupedForm(w, mark, t)
    requires var digits := DigitsOf(w) + DigitsOf(t); |digits| < TOKEN_MAX && Value(digits) <= INT64_MAX
    ensures GroupedItem(b + sign + c + (w + mark + t) + rest)
            == Item(Signed(sign == "-", Value(DigitsOf(w) + DigitsOf(t))), |b + sign + c + (w + mark + t)|)
            <==> Ends(rest, w, mark)
  {
    hide SignPart, Negative, GroupedEnd, DigitsOf, Groups, SignText, GroupedForm, Ends, Value;
    var pre, body := b + sign + c, w + mark + t;
    var s := pre + body + rest;
    FormStarts(w, mark, t);
    assert s == b + sign + c + (body + rest) && (body + rest)[0] == body[0];
    SignReads(b, sign, c, body + rest);
    EndOfForm(pre, w, mark, t, rest);
    if Ends(rest, w, mark) {
      GroupedReads(b, sign, c, w, mark, t, rest);
    }
  }

  /** By the grammar only a further group could carry an item with a mark on. Reading
      keeps to that exactly unless the item starts with its mark and a second mark with
      digits follows. */
  lemma SecondMarkIff(b: string, sign: string, c: string, w: string, mark: string, t: string, rest: string)
    requires SignText(b, sign, c) && GroupedForm(w, mark, t) && mark != ""
    requires var digits := DigitsOf(w) + DigitsOf(t); |digits| < TOKEN_MAX && Value(digits) <= INT64_MAX
    requires !DigitAt(rest, SkipBlanks(rest, 0))
    ensures GroupedItem(b + sign + c + (w + mark + t) + rest)
            == Item(Signed(sign == "-", Value(DigitsOf(w) + DigitsOf(t))), |b + sign + c + (w + mark + t)|)
            <==> w != "" || !(MarkAt(rest, 0) && DigitAt(rest, 1))
  {
    hide GroupedItem, GroupedForm, SignText, DigitsOf;
    GroupedReadsIff(b, sign, c, w, mark, t, rest);
  }

  /** What such an item is read as: one item with the digits of both its fractions. */
  lemma SecondMarkReads(b: string, sign: string, c: string, mark: char, t: string, mark': char, u: string, rest: string)
    requires SignText(b, sign, c) && Mark(mark) && Groups(t) && Mark(mark') && Groups(u)
    requires !DigitAt(rest, SkipBlanks(rest, 0))
    ensures var digits := DigitsOf(t) + DigitsOf(u);
            var item := [mark] + t + [mark'] + u;
            GroupedItem(b + sign + c + item + rest)
            == if |digits| >= TOKEN_MAX then NoItem
               else if Value(digits) > INT64_MAX then OutOfRange
               else Item(Signed(sign == "-", Value(digits)), |b + sign + c + item|)
  {
    hide SignPart, Negative, GroupedEnd, Groups, SignText, DigitsOf, SkipBlanks, DigitAt, Value;
    var pre, item := b + sign + c, [mark] + t + [mark'] + u;
    var x, s := pre + item, pre + item + rest;
    assert s == b + sign + c + (item + rest) && (item + rest)[0] == mark;
    SignReads(b, sign, c, item + rest);
    EndOfTwo(pre, mark, t, mark', u, rest);
    Middle(pre, item, rest);
    TwoMarksDigits(mark, t, mark', u);
  }

  lemma Middle(a: string, b: string, c: string)
    ensures (a + b + c)[|a|..|a + b|] == b
  {
  }

  lemma EndOfTwo(pre: string, mark: char, t: string, mark': char, u: string, rest: string)
    requires Mark(mark) && Groups(t) && Mark(mark') && Groups(u) && !DigitAt(rest, SkipBlanks(rest, 0))
    ensures var x := pre + ([mark] + t + [mark'] + u); GroupedEnd(x + rest, |pre|) == Some(|x|)
  {
    hide Groups, GroupedEnd, SkipBlanks;
    var x := pre + ([mark] + t + [mark'] + u);
    var s, k := x + rest, |pre| + 1 + |t|;
    assert s == (pre + [mark]) + t + ([mark'] + u + rest) == (pre + [mark] + t + [mark']) + u + rest;
    Middle(pre + [mark], t, [mark'] + u + rest);
    Middle(pre + [mark] + t + [mark'], u, rest);
    assert s[|pre|] == mark && s[k] == mark';
    SkipShift(x, rest, 0);
    EndAfterTwo(s, |pre|, k, |x|);
  }

  lemma TwoMarksDigits(mark: char, t: string, mark': char, u: string)
    requires Mark(mark) && Mark(mark')
    ensures DigitsOf([mark] + t + [mark'] + u) == DigitsOf(t) + DigitsOf(u)
  {
    hide DigitsOf;
    MarkDropped(mark);
    MarkDropped(mark');
    DigitsAppend([mark] + t + [mark'], u);
    DigitsAppend([mark] + t, [mark']);
    DigitsAppend([mark], t);
  }

  lemma EndAfterTwo(s: string, start: nat, k: nat, e: nat)
    requires start < k < e <= |s| && Mark(s[start]) && Groups(s[start + 1..k]) && Mark(s[k]) && Groups(s[k + 1..e])
    requires NoMore(s, e)
    ensures GroupedEnd(s, start) == Some(e)
  {
    hide SkipGroups, Groups;
    GroupsFirst(s, start + 1, k);
    MarkEndsGroups(s, k);
    SkipGroupsIff(s, start + 1, k);
    GroupsFirst(s, k + 1, e);
    SkipGroupsIff(s, k + 1, e);
  }

  /** Groups that have been read, and what is behind them. */
  lemma GroupsRead(s: string, i: nat)
    requires DigitAt(s, i)
    ensures var k := SkipGroups(s, i);
            i < k && Groups(s[i..k]) && !DigitAt(s[k..], SkipBlanks(s[k..], 0))
    ensures var k := SkipGroups(s, i); MarkAt(s, k) && DigitAt(s, k + 1) <==> MarkAt(s[k..], 0) && DigitAt(s[k..], 1)
  {
    var k := SkipGroups(s, i);
    assert SkipDigits(s, i) > i;
    SkipGroupsIff(s, i, k);
    assert s == s[..k] + s[k..];
    RestEnds(s[..k], s[k..], "", "");
  }

  /** A grouped item of the grammar that nothing behind it carries on, or a mark, groups,
      a second mark and groups. */
  predicate ItemRead(w: string, mark: string, t: string, mark': string, u: string, rest: string) {
    if mark' == "" then u == "" && GroupedForm(w, mark, t) && Ends(rest, w, mark)
    else
      && w == "" && |mark| == 1 && Mark(mark[0]) && Groups(t)
      && |mark'| == 1 && Mark(mark'[0]) && Groups(u) && !DigitAt(rest, SkipBlanks(rest, 0))
  }

  lemma Joined(s: string, i: nat, k: nat, e: nat)
    requires i <= k < e <= |s|
    ensures s[i..k] + [s[k]] + s[k + 1..e] == s[i..e]
  {
  }

  lemma Bare(t: string)
    ensures t + "" == t && "" + t == t
  {
  }

  /** Groups at `start`, and whatever belongs to them. */
  lemma ReadFromGroups(s: string, start: nat) returns (w: string, mark: string, t: string, e: nat)
    requires DigitAt(s, start)
    ensures start <= e <= |s| && w + mark + t == s[start..e] && ItemRead(w, mark, t, "", "", s[e..])
  {
    hide Groups, SkipGroups, SkipBlanks;
    e := SkipGroups(s, start);
    GroupsRead(s, start);
    w, mark, t := s[start..e], "", "";
    if MarkAt(s, e) && DigitAt(s, e + 1) {
      var k := e;
      e := SkipGroups(s, k + 1);
      GroupsRead(s, k + 1);
      mark, t := [s[k]], s[k + 1..e];
      Joined(s, start, k, e);
    }
  }

  /** A mark at `start` with groups behind it, and whatever belongs to them. */
  lemma ReadFromMark(s: string, start: nat) returns (mark: string, t: string, mark': string, u: string, e: nat)
    requires MarkAt(s, start) && DigitAt(s, start + 1)
    ensures start <= e <= |s| && mark + t + mark' + u == s[start..e] && ItemRead("", mark, t, mark', u, s[e..])
  {
    hide Groups, SkipGroups, SkipBlanks;
    e := SkipGroups(s, start + 1);
    GroupsRead(s, start + 1);
    mark, t, mark', u := [s[start]], s[start + 1..e], "", "";
    Joined(s, start, start, e);
    if MarkAt(s, e) && DigitAt(s, e + 1) {
      var k := e;
      e := SkipGroups(s, k + 1);
      GroupsRead(s, k + 1);
      mark', u := [s[k]], s[k + 1..e];
      Joined(s, start, k, e);
    }
  }

  /** Only such texts are read: whatever yields a grouped item starts with a sign part and
      one of those. */
  lemma GroupedItemOf(s: string)
    returns (b: string, sign: string, c: string, w: string, mark: string, t: string, mark': string, u: string, rest: string)
    requires GroupedItem(s) != NoItem
    ensures s == b + sign + c + (w + mark + t + mark' + u) + rest
    ensures SignText(b, sign, c) && ItemRead(w, mark, t, mark', u, rest)
  {
    hide ItemRead, SkipGroups, SignPart, SignText, DigitsOf;
    b, sign, c := SignPartOf(s);
    var start := SignPart(s);
    var e: nat;
    if MarkAt(s, start) {
      mark, t, mark', u, e := ReadFromMark(s, start);
      w := "";
      Bare(mark);
    } else {
      w, mark, t, e := ReadFromGroups(s, start);
      mark', u := "", "";
      Bare(w + mark + t);
    }
    rest := s[e..];
    ThreeParts(s, b + sign + c, w + mark + t + mark' + u, start, e);
  }

  lemma ThreeParts(s: string, pre: string, item: string, start: nat, e: nat)
    requires start <= e <= |s| && pre == s[..start] && item == s[start..e]
    ensures s == pre + item + s[e..]
  {
  }

  /** So ".1.2" is 12, while "0.1.2" is 01 with ".2" left. */
  lemma SecondMarkRead()
    ensures GroupedItem(".1.2") == Item(12, 4) && GroupedItem("0.1.2") == Item(1, 3)
  {
    hide GroupedItem, Value, DigitsOf;
    OneTwo();
    SecondMarkReads("", "", "", '.', "1", '.', "2", "");
    assert "" + "" + "" + (['.'] + "1" + ['.'] + "2") + "" == ".1.2";
    GroupedReads("", "", "", "0", ".", "1", ".2");
    assert "" + "" + "" + ("0" + "." + "1") + ".2" == "0.1.2";
  }

  lemma OneTwo()
    ensures DigitsOf("1") == "1" && DigitsOf("2") == "2" && DigitsOf("0") == "0"
    ensures Value("1" + "2") == 12 && Value("0" + "1") == 1
  {
    hide Value, DigitsOf;
    DigitsAll("1");
    DigitsAll("2");
    DigitsAll("0");
    TwoDigits('1', '2');
    TwoDigits('0', '1');
    assert "1" + "2" == ['1', '2'] && "0" + "1" == ['0', '1'];
  }

  lemma TwoDigits(a: char, b: char)
    requires Digit(a) && Digit(b)
    ensures Value([a, b]) == 10 * DigitValue(a) + DigitValue(b)
  {
    assert [a, b][..1] == [a] && [a][..0] == "";
    assert Value([a]) == DigitValue(a);
  }
}
