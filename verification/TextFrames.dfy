/** Editing and de-editing in text frames, and the character loops of text.c behind
    them. */
module TextFrames {
  import opened Prelude
  import opened NumericItems
  import opened RoundTrips
  import opened Powers

  datatype TextError = NotEditable | NoNumericItem | ItemOutOfRange | ZeroScale

  // ------------------------------------------------------------- reading loops

  method PastBlanks(s: string, i: nat) returns (j: nat)
    requires i <= |s|
    ensures j == SkipBlanks(s, i)
  {
    j := i;
    while j < |s| && Blank(s[j])
      invariant i <= j <= |s| && SkipBlanks(s, j) == SkipBlanks(s, i)
    {
      j := j + 1;
    }
  }

  method PastDigits(s: string, i: nat) returns (j: nat)
    requires i <= |s|
    ensures j == SkipDigits(s, i)
  {
    j := i;
    while j < |s| && Digit(s[j])
      invariant i <= j <= |s| && SkipDigits(s, j) == SkipDigits(s, i)
    {
      j := j + 1;
    }
  }

  /** Past blanks, an optional sign and blanks. */
  method PastSign(s: string) returns (negative: bool, j: nat)
    ensures negative == Negative(s) && j == SignPart(s)
  {
    var i := PastBlanks(s, 0);
    negative := false;
    if i < |s| && Sign(s[i]) {
      negative := s[i] == '-';
      i := i + 1;
    }
    j := PastBlanks(s, i);
  }

  /** STRTOLL on a token of digits; none when the number leaves 64 bits. */
  method ParseDigits(digits: string, negative: bool) returns (v: Option<int>)
    requires forall k :: 0 <= k < |digits| ==> Digit(digits[k])
    ensures v == if InInt64(Signed(negative, Value(digits))) then Some(Signed(negative, Value(digits))) else None
  {
    var abs := 0;
    assert digits[..|digits|] == digits;
    for k := 0 to |digits|
      invariant abs == Value(digits[..k])
    {
      assert digits[..k + 1][..k] == digits[..k];
      abs := 10 * abs + DigitValue(digits[k]);
    }
    var value := Signed(negative, abs);
    v := if InInt64(value) then Some(value) else None;
  }

  method ParseIntegerItem(s: string) returns (r: Parsed)
    ensures r == IntegerItem(s)
  {
    var negative, start := PastSign(s);
    var end := PastDigits(s, start);
    if end == start { return NoItem; }
    if (if negative then 1 else 0) + end - start >= TOKEN_MAX { return NoItem; }
    var v := ParseDigits(s[start..end], negative);
    r := if v == None then OutOfRange else Item(v.value, end);
  }

  /** Past the groups that start at `i`. */
  method PastGroups(s: string, i: nat) returns (j: nat)
    requires i <= |s|
    ensures j == SkipGroups(s, i)
  {
    j := PastDigits(s, i);
    var look := PastBlanks(s, j);
    while look > j && DigitAt(s, look)
      invariant i <= j <= |s| && look == SkipBlanks(s, j) && SkipMore(s, j) == SkipGroups(s, i)
      decreases |s| - j
    {
      j := PastDigits(s, look);
      look := PastBlanks(s, j);
    }
  }

  /** Gathers the digits of `s[start..end]`, as many as a token holds. */
  method GatherDigits(s: string, start: nat, end: nat) returns (digits: Option<string>)
    requires start <= end <= |s|
    ensures var d := DigitsOf(s[start..end]); digits == if |d| >= TOKEN_MAX then None else Some(d)
  {
    var d := "";
    var i := start;
    while i < end
      invariant start <= i <= end && d == DigitsOf(s[start..i]) && |d| < TOKEN_MAX
    {
      assert s[start..i + 1][..i - start] == s[start..i];
      if Digit(s[i]) {
        if |d| + 1 >= TOKEN_MAX {
          MoreDigits(s, start, i + 1, end);
          return None;
        }
        d := d + [s[i]];
      }
      i := i + 1;
    }
    digits := Some(d);
  }

  lemma MoreDigits(s: string, start: nat, i: nat, end: nat)
    requires start <= i <= end <= |s|
    ensures |DigitsOf(s[start..i])| <= |DigitsOf(s[start..end])|
  {
    assert s[start..end] == s[start..i] + s[i..end];
    DigitsAppend(s[start..i], s[i..end]);
  }

  method ParseGroupedItem(s: string) returns (r: Parsed)
    ensures r == GroupedItem(s)
  {
    hide SkipGroups, SignPart, Negative, DigitsOf, Value;
    var negative, start := PastSign(s);
    var first := if MarkAt(s, start) then start + 1 else start;
    if !DigitAt(s, first) { return NoItem; }
    var end := PastGroups(s, first);
    if MarkAt(s, end) && DigitAt(s, end + 1) {
      end := PastGroups(s, end + 1);
    }
    var digits := GatherDigits(s, start, end);
    if digits == None { return NoItem; }
    var v := ParseDigits(digits.value, false);
    r := if v == None then OutOfRange else Item(if negative then -v.value else v.value, end);
  }

  // ------------------------------------------------------------- grouping loops

  /** Copies the first `count` characters, or as many as leave room for a NUL. */
  method CopyUpTo(s: string, count: nat, out: array<char>) returns (n: nat)
    requires count <= |s| && out.Length > 0
    modifies out
    ensures n == if count < out.Length then count else out.Length - 1
    ensures out[..n] == s[..n]
  {
    n := 0;
    while n < count && n + 1 < out.Length
      invariant 0 <= n <= count && n < out.Length && out[..n] == s[..n]
    {
      out[n] := s[n];
      n := n + 1;
    }
  }

  /** `text` has been written into a buffer as far as whole groups of it fit, and closed
      with NUL. */
  ghost predicate WrittenGroups(text: string, out: array<char>, n: nat)
    reads out
  {
    && n < out.Length && out[n] == '\0' && n <= |text| && out[..n] == text[..n]
    && (n < |text| ==> out.Length <= n + 4)
    && (n < |text| && n + 1 < out.Length ==> text[n] == ' ')
  }

  /** Writes the groups of an integer part into a buffer and closes it with NUL; the
      buffer may be too small, or nothing at all. */
  method GroupIntegerPart(integer: string, out: array<char>) returns (n: nat)
    modifies out
    ensures out.Length == 0 ==> n == 0
    ensures out.Length > 0 ==> WrittenGroups(GroupWhole(integer), out, n)
  {
    hide GroupWhole;
    if out.Length == 0 { return 0; }
    var len := |integer|;
    if len <= 3 {
      n := CopyUpTo(integer, len, out);
      out[n] := '\0';
      FirstGroup(integer, len);
      return;
    }
    var first := if len % 3 == 0 then 3 else len % 3;
    n := CopyUpTo(integer, first, out);
    FirstGroup(integer, first);
    if n < first {
      Longer(integer, first);
      out[n] := '\0';
      return;
    }
    n := FurtherGroups(integer, first, out, n);
  }

  lemma FirstGroup(d: string, first: nat)
    requires first <= 3 && first <= |d|
    ensures GroupWhole(d[..first]) == d[..first]
    ensures first == |d| ==> d[..first] == d
  {
  }

  /** Writes a blank and one group behind the characters already there. */
  method PutGroup(group: string, out: array<char>, at: nat)
    requires |group| == 3 && at + 4 <= out.Length
    modifies out
    ensures out[..at + 4] == old(out[..at]) + " " + group
  {
    out[at], out[at + 1], out[at + 2], out[at + 3] := ' ', group[0], group[1], group[2];
    assert out[..at] == old(out[..at]);
  }

  /** Writes the groups from `start` on behind the `at` characters already there. */
  method FurtherGroups(integer: string, start: nat, out: array<char>, at: nat) returns (pos: nat)
    requires 0 < start <= |integer| && (|integer| - start) % 3 == 0 && at < out.Length
    requires out[..at] == GroupWhole(integer[..start])
    modifies out
    ensures WrittenGroups(GroupWhole(integer), out, pos)
  {
    hide GroupWhole;
    var index := start;
    pos := at;
    while index < |integer| && pos + 4 < out.Length
      invariant start <= index <= |integer| && (|integer| - index) % 3 == 0 && pos < out.Length
      invariant out[..pos] == GroupWhole(integer[..index])
    {
      GroupNext(integer, index);
      PutGroup(integer[index..index + 3], out, pos);
      pos := pos + 4;
      index := index + 3;
    }
    if index < |integer| {
      GroupNext(integer, index);
      Longer(integer, index + 3);
    }
    out[pos] := '\0';
    assert index == |integer| ==> integer[..index] == integer;
  }

  lemma GroupNext(d: string, index: nat)
    requires 0 < index && index + 3 <= |d|
    ensures GroupWhole(d[..index + 3]) == GroupWhole(d[..index]) + " " + d[index..index + 3]
  {
    assert d[..index + 3][..index] == d[..index];
  }

  lemma {:induction false} Longer(d: string, index: nat)
    requires 0 < index <= |d| && (|d| - index) % 3 == 0
    ensures GroupWhole(d[..index]) <= GroupWhole(d)
    decreases |d| - index
  {
    if index < |d| {
      GroupNext(d, index);
      Longer(d, index + 3);
    } else {
      assert d[..index] == d;
    }
  }

  /** What the first `i` digits of a fraction part become. */
  function TailSoFar(d: string, i: nat): string
    requires i <= |d|
  {
    if i == 0 then ""
    else TailSoFar(d, i - 1) + (if i > 1 && (i - 1) % 3 == 0 then " " else "") + [d[i - 1]]
  }

  lemma {:induction false} TailSoFarIs(d: string, i: nat)
    requires 0 < i <= |d|
    ensures TailSoFar(d, i) == if i <= 3 then d[..i] else d[..3] + " " + TailSoFar(d[3..], i - 3)
  {
    if i > 1 {
      TailSoFarIs(d, i - 1);
    }
    if i == 4 {
      assert TailSoFar(d[3..], 0) == "" && TailSoFar(d[3..], 1) == [d[3]];
    }
  }

  lemma {:induction false} TailWhole(d: string)
    ensures TailSoFar(d, |d|) == GroupTail(d)
  {
    if |d| > 0 {
      TailSoFarIs(d, |d|);
    }
    if |d| > 3 {
      TailWhole(d[3..]);
    }
  }

  lemma {:induction false} TailGrows(d: string, i: nat)
    requires i < |d|
    ensures TailSoFar(d, i) + (if i > 0 && i % 3 == 0 then " " else "") + [d[i]] <= TailSoFar(d, |d|)
    decreases |d| - i
  {
    if i + 1 < |d| {
      TailGrows(d, i + 1);
    }
  }

  lemma {:induction false} TailLength(d: string, i: nat)
    requires 0 < i <= |d|
    ensures |TailSoFar(d, i)| == i + (i - 1) / 3
  {
    if i > 1 {
      TailLength(d, i - 1);
    }
  }

  /** The closing NUL falls behind the buffer: it has one place more than some whole
      number of groups with their blanks takes, and the fraction part goes on. */
  predicate Overruns(d: string, size: nat) {
    size % 4 == 1 && size > 1 && |d| > 3 * (size / 4)
  }

  /** Writes the groups of a fraction part into a buffer, as many digits as fit, and
      closes it with NUL; none when that falls behind the buffer. */
  method GroupFractionalPart(fraction: string, out: array<char>) returns (n: Option<nat>)
    modifies out
    ensures out.Length == 0 ==> n == Some(0)
    ensures n == None <==> Overruns(fraction, out.Length)
    ensures out.Length > 0 && n.Some? ==>
              && n.value < out.Length && out[n.value] == '\0'
              && n.value <= |GroupTail(fraction)| && out[..n.value] == GroupTail(fraction)[..n.value]
              && (n.value < |GroupTail(fraction)| ==> n.value + 1 == out.Length)
  {
    hide GroupTail;
    if out.Length == 0 { return Some(0); }
    TailWhole(fraction);
    var len := |fraction|;
    if len <= 3 {
      if len > 0 { TailSoFarIs(fraction, len); }
      var count := CopyUpTo(fraction, len, out);
      out[count] := '\0';
      return Some(count);
    }
    var pos := PlaceDigits(fraction, out);
    if pos == out.Length { return None; }
    out[pos] := '\0';
    n := Some(pos);
  }

  /** The loop over the digits, which may fill the buffer. */
  method PlaceDigits(fraction: string, out: array<char>) returns (pos: nat)
    requires out.Length > 0 && |fraction| > 3
    modifies out
    ensures pos <= out.Length && pos <= |TailSoFar(fraction, |fraction|)|
    ensures out[..pos] == TailSoFar(fraction, |fraction|)[..pos]
    ensures pos == out.Length <==> Overruns(fraction, out.Length)
    ensures pos < |TailSoFar(fraction, |fraction|)| ==> out.Length <= pos + 1
  {
    var len, index := |fraction|, 0;
    pos := 0;
    while index < len && pos + 1 < out.Length
      invariant 0 <= index <= len && pos <= out.Length && out[..pos] == TailSoFar(fraction, index)
      invariant pos == out.Length ==> index > 1 && (index - 1) % 3 == 0
    {
      TailGrows(fraction, index);
      if index > 0 && index % 3 == 0 {
        out[pos] := ' ';
        pos := pos + 1;
      }
      out[pos] := fraction[index];
      pos := pos + 1;
      index := index + 1;
    }
    if index < len { TailGrows(fraction, index); }
    if index > 0 { OverrunsWhen(fraction, index, out.Length); }
  }

  /** When the loop stops with the buffer filled. */
  lemma OverrunsWhen(d: string, index: nat, size: nat)
    requires 0 < index <= |d| && |TailSoFar(d, index)| <= size
    requires index == |d| || |TailSoFar(d, index)| + 1 >= size
    requires |TailSoFar(d, index)| == size ==> index > 1 && (index - 1) % 3 == 0
    ensures |TailSoFar(d, index)| == size <==> Overruns(d, size)
  {
    TailLength(d, index);
    hide TailSoFar;
    FilledWhen(|d|, index, (index - 1) / 3, size);
  }

  lemma FilledWhen(len: nat, index: nat, k: nat, size: nat)
    requires 0 < index <= len && 3 * k < index <= 3 * k + 3 && index + k <= size
    requires index == len || index + k + 1 >= size
    requires index + k == size ==> k > 0 && index == 3 * k + 1
    ensures index + k == size <==> size % 4 == 1 && size > 1 && len > 3 * (size / 4)
  {
    assert index + k == size ==> size == 4 * k + 1;
  }

  // ------------------------------------------------------------- text frames

  /** Characters shared by any number of frames. */
  class TextObject {
    const main: array<char>
    const constant: bool

    constructor (main: array<char>, constant: bool)
      ensures this.main == main && this.constant == constant
    {
      this.main, this.constant := main, constant;
    }
  }

  /** A subframe of a text object, or notext. */
  class TextFrame {
    const obj: TextObject?
    const start: int
    const length: int
    var pos: int

    constructor (obj: TextObject?, start: int, length: int)
      requires length >= 0
      requires obj != null && length > 0 ==> start >= 1 && start - 1 + length <= obj.main.Length
      ensures Valid() && this.obj == obj && this.start == start && this.length == length && pos == 1
    {
      this.obj, this.start, this.length := obj, start, length;
      pos := 1;
    }

    ghost predicate Valid() {
      length >= 0 && (obj != null && length > 0 ==> start >= 1 && start - 1 + length <= obj.main.Length)
    }

    predicate NoText() {
      obj == null || length == 0
    }

    function Content(): (s: string)
      reads if obj == null then {} else {obj.main}
      requires Valid() && !NoText()
      ensures |s| == length
    {
      obj.main[start - 1..start - 1 + length]
    }
  }

  predicate Editable(frame: TextFrame?) {
    frame != null && !frame.NoText() && !frame.obj.constant
  }

  /** What editing may write: the characters of the frame's object and its position. */
  ghost function Footprint(frame: TextFrame?): set<object> {
    if frame == null then {} else {frame} + if frame.obj == null then {} else {frame.obj.main}
  }

  /** The characters of the object outside the frame are as before. */
  twostate predicate OutsideKept(frame: TextFrame)
    requires frame.obj != null
    reads frame.obj.main
  {
    var main := frame.obj.main;
    forall i :: 0 <= i < main.Length && !(frame.start - 1 <= i < frame.start - 1 + frame.length) ==>
      main[i] == old(main[i])
  }

  method EditNumeric(frame: TextFrame?, item: string) returns (error: Option<TextError>)
    requires frame != null ==> frame.Valid()
    modifies Footprint(frame)
    ensures error == if Editable(frame) then None else Some(NotEditable)
    ensures Editable(frame) ==>
              && frame.Content() == Field(item, frame.length) && frame.pos == frame.length + 1
              && OutsideKept(frame)
    ensures Editable(frame) && |item| > frame.length ==>
              forall k :: 0 <= k < frame.length ==> frame.Content()[k] == '*'
    ensures Editable(frame) && |item| <= frame.length ==>
              && frame.Content()[frame.length - |item|..] == item
              && forall k :: 0 <= k < frame.length - |item| ==> frame.Content()[k] == ' '
    ensures !Editable(frame) && frame != null ==> frame.pos == old(frame.pos)
    ensures !Editable(frame) && frame != null && frame.obj != null ==>
              frame.obj.main[..] == old(frame.obj.main[..])
  {
    if frame == null || frame.NoText() { return Some(NotEditable); }
    if frame.obj.constant { return Some(NotEditable); }
    var main, from, width, padded := frame.obj.main, frame.start - 1, frame.length, item;
    if |item| > width {
      padded := seq(width, _ => '*');
    } else {
      padded := seq(width - |item|, _ => ' ') + item;
    }
    assert padded == Field(item, width);
    forall i | 0 <= i < width {
      main[from + i] := padded[i];
    }
    assert main[from..from + width] == padded;
    frame.pos := frame.length + 1;
    error := None;
  }

  method PutInt(frame: TextFrame?, value: int) returns (error: Option<TextError>)
    requires InInt64(value) && (frame != null ==> frame.Valid())
    modifies Footprint(frame)
    ensures error == if Editable(frame) then None else Some(NotEditable)
    ensures Editable(frame) ==>
              && frame.Content() == Field(IntegerText(value), frame.length) && frame.pos == frame.length + 1
              && OutsideKept(frame)
    ensures error != None && frame != null ==> frame.pos == old(frame.pos)
    ensures error != None && frame != null && frame.obj != null ==>
              frame.obj.main[..] == old(frame.obj.main[..])
  {
    var item := IntegerText(value);
    error := EditNumeric(frame, item);
  }

  /** The answer to a parse: the value with POS behind the item, or the error. */
  ghost predicate Answers(parsed: Parsed, r: Result<int, TextError>, pos: int, was: int) {
    match parsed
    case NoItem => r == Err(NoNumericItem) && pos == was
    case OutOfRange => r == Err(ItemOutOfRange) && pos == was
    case Item(value, consumed) => r == Ok(value) && pos == consumed + 1
  }

  method GetInt(frame: TextFrame?) returns (r: Result<int, TextError>)
    requires frame != null ==> frame.Valid()
    modifies frame
    ensures frame == null || frame.NoText() ==> r == Err(NoNumericItem)
    ensures frame != null && frame.NoText() ==> frame.pos == old(frame.pos)
    ensures frame != null && !frame.NoText() ==>
              Answers(IntegerItem(frame.Content()), r, frame.pos, old(frame.pos))
  {
    if frame == null || frame.NoText() { return Err(NoNumericItem); }
    var parsed := ParseIntegerItem(frame.Content());
    match parsed
    case NoItem => r := Err(NoNumericItem);
    case OutOfRange => r := Err(ItemOutOfRange);
    case Item(value, consumed) =>
      frame.pos := consumed + 1;
      r := Ok(value);
  }

  method GetFrac(frame: TextFrame?) returns (r: Result<int, TextError>)
    requires frame != null ==> frame.Valid()
    modifies frame
    ensures frame == null || frame.NoText() ==> r == Err(NoNumericItem)
    ensures frame != null && frame.NoText() ==> frame.pos == old(frame.pos)
    ensures frame != null && !frame.NoText() ==>
              Answers(GroupedItem(frame.Content()), r, frame.pos, old(frame.pos))
  {
    if frame == null || frame.NoText() { return Err(NoNumericItem); }
    var parsed := ParseGroupedItem(frame.Content());
    match parsed
    case NoItem => r := Err(NoNumericItem);
    case OutOfRange => r := Err(ItemOutOfRange);
    case Item(value, consumed) =>
      frame.pos := consumed + 1;
      r := Ok(value);
  }

  const DIGITS_BUFFER: nat := 64

  /** Fewer than one place counts as none. With 64 places or more the scale is 0 and the
      division by it fails. */
  method PutFrac(frame: TextFrame?, value: int, places: int, mark: char) returns (error: Option<TextError>)
    requires InInt64(value) && Mark(mark) && (frame != null ==> frame.Valid())
    modifies Footprint(frame)
    ensures error == if places >= 64 then Some(ZeroScale) else if Editable(frame) then None else Some(NotEditable)
    ensures error == None ==>
              var n := if places < 0 then 0 else places;
              && ScaleOf(n) > 0 && frame.Content() == Field(GroupedText(value, n, mark), frame.length)
              && frame.pos == frame.length + 1 && OutsideKept(frame)
    ensures error != None && frame != null ==> frame.pos == old(frame.pos)
    ensures error != None && frame != null && frame.obj != null ==>
              frame.obj.main[..] == old(frame.obj.main[..])
  {
    var n := if places < 0 then 0 else places;
    ScaleIs(n);
    var text := FormatFrac(value, n, mark);
    if text == None { return Some(ZeroScale); }
    error := EditNumeric(frame, text.value);
  }

  /** The scale, in 64 bits without a sign. */
  method Scale(places: nat) returns (scale: nat)
    ensures scale == ScaleOf(places)
  {
    scale := 1;
    for i := 0 to places
      invariant scale == ScaleOf(i)
    {
      Wraps(Pow10(i));
      scale := (scale * 10) % UINT64;
    }
  }

  lemma Wraps(x: nat)
    ensures ((x % UINT64) * 10) % UINT64 == (10 * x) % UINT64
  {
    ModProduct(x, 10, UINT64);
  }

  method FormatFrac(value: int, places: nat, mark: char) returns (text: Option<string>)
    requires InInt64(value)
    ensures text == if ScaleOf(places) == 0 then None else Some(GroupedText(value, places, mark))
  {
    hide GroupWhole, GroupTail, Decimal, Padded, Pow10, ScaleOf, WrittenGroups;
    var negative := value < 0;
    var abs := if negative then -(value + 1) + 1 else value;
    var scale := Scale(places);
    ScaleIs(places);
    NoPlaces(abs);
    if places > 0 && scale == 0 { return None; }
    var whole := if places == 0 then abs else abs / scale;
    var frac := if places == 0 then 0 else abs % scale;
    assert whole == Whole(abs, places) && frac == Fraction(abs, places);
    TextFits(value, places, mark);
    var buffer := new char[DIGITS_BUFFER];
    var n := GroupIntegerPart(Decimal(whole), buffer);
    AllWritten(GroupWhole(Decimal(whole)), buffer, n);
    var body := buffer[..n];
    if places > 0 {
      var digits := Padded(frac, places)[..Shown(places)];
      assert digits == FractionDigits(abs, places);
      var tail := new char[DIGITS_BUFFER];
      var k := GroupFractionalPart(digits, tail);
      assert tail[..k.value] == GroupTail(digits);
      body := (if whole == 0 then "" else body) + [mark] + tail[..k.value];
    }
    assert body == Unsigned(abs, places, mark);
    text := Some((if negative then "-" else "") + body);
  }

  lemma AllWritten(text: string, out: array<char>, n: nat)
    requires WrittenGroups(text, out, n) && |text| + 4 <= out.Length
    ensures n <= out.Length && out[..n] == text
  {
  }

  // ------------------------------------------------------------- reading back

  /** PUTINT into a frame and GETINT from it: the value comes back, with POS behind the
      frame, exactly when the item fits. */
  lemma IntReadsBack(value: int, width: nat, r: Result<int, TextError>, pos: int, was: int)
    requires InInt64(value) && Answers(IntegerItem(Field(IntegerText(value), width)), r, pos, was)
    ensures r == Ok(value) && pos == width + 1 <==> |IntegerText(value)| <= width
    ensures |IntegerText(value)| > width ==> r == Err(NoNumericItem) && pos == was
  {
    IntegerRoundTrip(value, width);
  }

  /** PUTFRAC and GETFRAC likewise: with up to 19 places for every value but the least
      integer, with more only for values below the wrapped scale whose digits are all
      shown. */
  lemma FracReadsBack(value: int, places: nat, mark: char, width: nat, r: Result<int, TextError>, pos: int, was: int)
    requires InInt64(value) && Mark(mark) && ScaleOf(places) > 0
    requires Answers(GroupedItem(Field(GroupedText(value, places, mark), width)), r, pos, was)
    ensures var item := GroupedText(value, places, mark);
            && (|item| > width ==> r == Err(NoNumericItem) && pos == was)
            && (r == Ok(value) && pos == width + 1 <==>
                  && |item| <= width && value > INT64_MIN
                  && (places > 19 ==>
                        Abs(value) < ScaleOf(places) && (places <= FRACTION_MAX || value == 0)))
            && (|item| <= width && value == INT64_MIN && places <= 19 ==>
                  r == Err(ItemOutOfRange) && pos == was)
  {
    hide ScaleOf, GroupedItem, Field, GroupedText;
    if places > 19 {
      WideRoundTrip(value, places, mark, width);
    } else {
      GroupedRoundTrip(value, places, mark, width);
    }
    if |GroupedText(value, places, mark)| > width {
      StarsRead(GroupedText(value, places, mark), width);
    }
  }
}
