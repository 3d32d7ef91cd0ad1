/** Dense arrays: the overflow predicates of safety.c and the addressing of array.c. */
module Arrays {
  import opened Prelude

  datatype Dim = Dim(low: int, high: int)

  ghost predicate Machine(dims: seq<Dim>) {
    forall i :: 0 <= i < |dims| ==> InInt64(dims[i].low) && InInt64(dims[i].high)
  }

  // ------------------------------------------------------------- safety.c

  function Size(d: Dim): nat {
    if d.low > d.high then 0 else d.high - d.low + 1
  }

  /** The size of a dimension, by the branch that computes in 128 bits. */
  function DimSize(low: int, high: int): Option<int> {
    if low > high then Some(0)
    else
      var span := high - low + 1;
      if span > INT64_MAX then None else Some(span)
  }

  /** The branch without 128-bit integers, which computes in 64 bits throughout. */
  function DimSizePortable(low: int, high: int): Option<int> {
    if low > high then Some(0)
    else if low <= 0 && high >= INT64_MAX + low then None
    else Some(high - low + 1)
  }

  /** The branches agree, and no sum the portable one forms leaves 64 bits. */
  lemma DimSizeBranchesAgree(low: int, high: int)
    requires InInt64(low) && InInt64(high)
    ensures DimSizePortable(low, high) == DimSize(low, high)
    ensures low <= 0 ==> InInt64(INT64_MAX + low)
    ensures low <= high && !(low <= 0 && high >= INT64_MAX + low) ==> InInt64(high - low) && InInt64(high - low + 1)
  {
  }

  /** The number of elements of a dense array. */
  function Count(dims: seq<Dim>): nat {
    if dims == [] then 1 else Size(dims[0]) * Count(dims[1..])
  }

  /** The first dimension without elements, or the number of dimensions. */
  function FirstEmpty(dims: seq<Dim>): (e: nat)
    ensures e <= |dims|
    ensures forall i :: 0 <= i < e ==> Size(dims[i]) > 0
    ensures e < |dims| ==> Size(dims[e]) == 0
  {
    if dims == [] || Size(dims[0]) == 0 then 0 else 1 + FirstEmpty(dims[1..])
  }

  /** The extents `count_ok` lets through: those whose dimensions, up to the first
      empty one, have a product that fits. */
  predicate Accepted(dims: seq<Dim>) {
    Count(dims[..FirstEmpty(dims)]) <= INT64_MAX
  }

  lemma {:induction false} CountAppend(a: seq<Dim>, b: seq<Dim>)
    ensures Count(a + b) == Count(a) * Count(b)
  {
    if a == [] {
      assert a + b == b;
    } else {
      assert (a + b)[1..] == a[1..] + b;
      CountAppend(a[1..], b);
      assert Size(a[0]) * (Count(a[1..]) * Count(b)) == Size(a[0]) * Count(a[1..]) * Count(b);
    }
  }

  lemma CountNext(dims: seq<Dim>, i: nat)
    requires i < |dims|
    ensures Count(dims[..i + 1]) == Count(dims[..i]) * Size(dims[i])
    ensures Count(dims[i..]) == Size(dims[i]) * Count(dims[i + 1..])
  {
    assert dims[..i + 1] == dims[..i] + [dims[i]] && dims[i..][1..] == dims[i + 1..];
    CountAppend(dims[..i], [dims[i]]);
    assert Count([dims[i]]) == Size(dims[i]) * Count([]);
  }

  /** No elements iff some dimension has none. */
  lemma {:induction false} CountZero(dims: seq<Dim>)
    ensures Count(dims) == 0 <==> exists i :: 0 <= i < |dims| && Size(dims[i]) == 0
  {
    if dims != [] {
      CountZero(dims[1..]);
      if i :| 0 <= i < |dims| && Size(dims[i]) == 0 && Size(dims[0]) != 0 {
        assert dims[1..][i - 1] == dims[i];
      }
      if i :| 0 <= i < |dims| - 1 && Size(dims[1..][i]) == 0 {
        assert dims[i + 1] == dims[1..][i];
      }
    }
  }

  lemma Grows(a: nat, b: nat)
    requires b > 0
    ensures a <= a * b && a <= b * a
  {
  }

  /** Dimensions that have elements only make an array larger. */
  lemma PrefixCount(dims: seq<Dim>, i: nat, j: nat)
    requires i <= j <= |dims| && forall k :: i <= k < j ==> Size(dims[k]) > 0
    ensures Count(dims[..i]) <= Count(dims[..j])
    decreases j - i
  {
    if i < j {
      PrefixCount(dims, i, j - 1);
      CountNext(dims, j - 1);
      Grows(Count(dims[..j - 1]), Size(dims[j - 1]));
    }
  }

  lemma SuffixCount(dims: seq<Dim>, i: nat, j: nat)
    requires i <= j <= |dims| && forall k :: i <= k < j ==> Size(dims[k]) > 0
    ensures Count(dims[j..]) <= Count(dims[i..])
    decreases j - i
  {
    if i < j {
      SuffixCount(dims, i + 1, j);
      CountNext(dims, i);
      Grows(Count(dims[i + 1..]), Size(dims[i]));
    }
  }

  /** A guard that divides instead of multiplying is exact. */
  lemma ProductGuard(count: nat, limit: nat, size: nat)
    requires size > 0
    ensures count > limit / size <==> count * size > limit
  {
    var q, r := limit / size, limit % size;
    assert limit == q * size + r;
    if count > q {
      assert count * size >= (q + 1) * size;
    } else {
      assert count * size <= q * size;
    }
  }

  lemma DimSizeIs(d: Dim)
    ensures DimSize(d.low, d.high) == if Size(d) > INT64_MAX then None else Some(Size(d))
  {
  }

  /** What one dimension decides. */
  lemma CountStep(dims: seq<Dim>, dim: nat, product: nat)
    requires dim < |dims| && dim <= FirstEmpty(dims) && product == Count(dims[..dim]) <= INT64_MAX
    ensures var size := DimSize(dims[dim].low, dims[dim].high);
            match size
            case None => !Accepted(dims)
            case Some(n) =>
              if n == 0 then Accepted(dims) && Count(dims) == 0
              else
                && n > 0 && dim + 1 <= FirstEmpty(dims)
                && (product > INT64_MAX / n ==> !Accepted(dims))
                && (product <= INT64_MAX / n ==> product * n == Count(dims[..dim + 1]) <= INT64_MAX)
  {
    StopsAt(dims, dim);
    CountZero(dims[..dim]);
    DimSizeIs(dims[dim]);
    hide Count, Accepted, FirstEmpty, Size, DimSize;
    if Size(dims[dim]) == 0 {
      CountZero(dims);
    } else {
      OneMoreFits(dims, dim);
    }
  }

  lemma OneMoreFits(dims: seq<Dim>, dim: nat)
    requires dim < |dims| && Size(dims[dim]) > 0 && Count(dims[..dim]) > 0
    ensures Count(dims[..dim]) * Size(dims[dim]) == Count(dims[..dim + 1])
    ensures Count(dims[..dim]) > INT64_MAX / Size(dims[dim]) <==> Count(dims[..dim + 1]) > INT64_MAX
    ensures Size(dims[dim]) > INT64_MAX ==> Count(dims[..dim + 1]) > INT64_MAX
  {
    hide Count, Size;
    CountNext(dims, dim);
    TooMany(Count(dims[..dim]), Size(dims[dim]));
  }

  lemma TooMany(product: nat, n: nat)
    requires product > 0 && n > 0
    ensures n > INT64_MAX ==> product * n > INT64_MAX
    ensures product > INT64_MAX / n <==> product * n > INT64_MAX
  {
    Grows(n, product);
    ProductGuard(product, INT64_MAX, n);
  }

  /** A dimension without elements ends the count; one with elements joins it, and too
      many of them are too many for good. */
  lemma StopsAt(dims: seq<Dim>, dim: nat)
    requires dim < |dims| && dim <= FirstEmpty(dims)
    ensures Size(dims[dim]) == 0 ==> (Accepted(dims) <==> Count(dims[..dim]) <= INT64_MAX)
    ensures Size(dims[dim]) > 0 ==>
              dim + 1 <= FirstEmpty(dims) && (Count(dims[..dim + 1]) > INT64_MAX ==> !Accepted(dims))
  {
    hide Count;
    if Size(dims[dim]) > 0 { PrefixCount(dims, dim + 1, FirstEmpty(dims)); }
  }

  lemma AcceptedIs(dims: seq<Dim>)
    ensures Accepted(dims) <==> Count(dims[..FirstEmpty(dims)]) <= INT64_MAX
  {
  }

  method CountOk(dims: seq<Dim>) returns (count: Option<int>)
    requires Machine(dims)
    ensures count == if Accepted(dims) then Some(Count(dims)) else None
    ensures count.Some? <==> Count(dims[..FirstEmpty(dims)]) <= INT64_MAX
  {
    hide Accepted;
    AcceptedIs(dims);
    var product, dim := 1, 0;
    while dim < |dims|
      invariant 0 <= dim <= |dims| && dim <= FirstEmpty(dims)
      invariant product == Count(dims[..dim]) <= INT64_MAX
    {
      CountStep(dims, dim, product);
      var size := DimSize(dims[dim].low, dims[dim].high);
      if size == None { return None; }
      if size == Some(0) { return Some(0); }
      if product > INT64_MAX / size.value { return None; }
      product := product * size.value;
      dim := dim + 1;
    }
    AcceptedWhole(dims);
    return Some(product);
  }

  lemma AcceptedWhole(dims: seq<Dim>)
    requires |dims| <= FirstEmpty(dims) && Count(dims[..|dims|]) <= INT64_MAX
    ensures Accepted(dims) && dims[..|dims|] == dims
  {
    assert dims[..|dims|] == dims;
  }

  /** An extent all of whose dimensions have elements is let through iff they can be
      counted. */
  lemma AcceptedIff(dims: seq<Dim>)
    requires Count(dims) > 0
    ensures Accepted(dims) <==> Count(dims) <= INT64_MAX
  {
    CountZero(dims);
    assert dims[..|dims|] == dims;
  }

  /** The bytes before the elements: the number of dimensions and their bounds. */
  function HeaderOk(ndims: int): Option<int> {
    if ndims < 1 || ndims > (SIZE_MAX - 8) / 16 then None else Some(8 + ndims * 16)
  }

  function TotalOk(count: int, header: nat, elemSize: nat): Option<int> {
    if count < 0 || elemSize == 0 then None
    else if count > (SIZE_MAX - header) / elemSize then None
    else
      var total := header + count * elemSize;
      if total > INT64_MAX then None else Some(total)
  }

  /** An allocation is let through iff the header and every element fit in 64 bits, and
      then no sum or product formed on the way leaves size_t. */
  lemma TotalExact(ndims: int, count: nat, elemSize: nat)
    requires 1 <= ndims <= INT64_MAX && 0 < elemSize
    ensures var header := HeaderOk(ndims);
            var bytes := 8 + 16 * ndims + count * elemSize;
            && (header.Some? ==> 0 <= header.value == 8 + 16 * ndims <= SIZE_MAX)
            && (header.Some? && TotalOk(count, header.value, elemSize).Some? <==> bytes <= INT64_MAX)
            && (header.Some? && TotalOk(count, header.value, elemSize).Some? ==>
                  TotalOk(count, header.value, elemSize) == Some(bytes))
  {
    if HeaderOk(ndims).Some? {
      ProductGuard(count, SIZE_MAX - HeaderOk(ndims).value, elemSize);
    }
  }

  // ------------------------------------------------------------- addressing

  ghost predicate InBounds(dims: seq<Dim>, subs: seq<int>) {
    |subs| == |dims| && forall i :: 0 <= i < |dims| ==> dims[i].low <= subs[i] <= dims[i].high
  }

  /** The place of an element in row-major order. */
  function Offset(dims: seq<Dim>, subs: seq<int>): int
    requires |subs| == |dims|
  {
    if dims == [] then 0
    else (subs[0] - dims[0].low) * Count(dims[1..]) + Offset(dims[1..], subs[1..])
  }

  /** The subscripts of the element at a place. */
  function SubscriptsAt(dims: seq<Dim>, place: nat): (subs: seq<int>)
    requires place < Count(dims)
    ensures |subs| == |dims|
  {
    if dims == [] then []
    else
      var inner := Count(dims[1..]);
      assert inner != 0;
      [dims[0].low + place / inner] + SubscriptsAt(dims[1..], place % inner)
  }

  lemma InBoundsTail(dims: seq<Dim>, subs: seq<int>)
    requires InBounds(dims, subs) && dims != []
    ensures InBounds(dims[1..], subs[1..]) && 0 <= subs[0] - dims[0].low < Size(dims[0])
  {
  }

  lemma Scaled(a: nat, b: nat, inner: nat, x: nat)
    requires a < b && x < inner
    ensures a * inner + x < b * inner
  {
    assert b * inner >= (a + 1) * inner;
  }

  lemma {:induction false} OffsetInRange(dims: seq<Dim>, subs: seq<int>)
    requires InBounds(dims, subs)
    ensures 0 <= Offset(dims, subs) < Count(dims)
  {
    if dims != [] {
      InBoundsTail(dims, subs);
      OffsetInRange(dims[1..], subs[1..]);
      Scaled(subs[0] - dims[0].low, Size(dims[0]), Count(dims[1..]), Offset(dims[1..], subs[1..]));
    }
  }

  lemma Quotient(q: nat, x: nat, inner: nat)
    requires x < inner
    ensures (q * inner + x) / inner == q && (q * inner + x) % inner == x
  {
    ProductGuard(q, q * inner + x, inner);
    ProductGuard(q + 1, q * inner + x, inner);
  }

  /** Subscripts within bounds and places below the count correspond one to one. */
  lemma {:induction false} SubscriptsOfOffset(dims: seq<Dim>, subs: seq<int>)
    requires InBounds(dims, subs)
    ensures 0 <= Offset(dims, subs) < Count(dims)
    ensures SubscriptsAt(dims, Offset(dims, subs)) == subs
  {
    OffsetInRange(dims, subs);
    if dims != [] {
      InBoundsTail(dims, subs);
      SubscriptsOfOffset(dims[1..], subs[1..]);
      Quotient(subs[0] - dims[0].low, Offset(dims[1..], subs[1..]), Count(dims[1..]));
    }
  }

  lemma {:induction false} OffsetOfSubscripts(dims: seq<Dim>, place: nat)
    requires place < Count(dims)
    ensures InBounds(dims, SubscriptsAt(dims, place))
    ensures Offset(dims, SubscriptsAt(dims, place)) == place
  {
    if dims != [] {
      var inner := Count(dims[1..]);
      var q, r := Split(place, Size(dims[0]), inner);
      OffsetOfSubscripts(dims[1..], r);
      assert SubscriptsAt(dims, place) == [dims[0].low + q] + SubscriptsAt(dims[1..], r);
      PlacedFirst(dims, dims[0].low + q, SubscriptsAt(dims[1..], r));
    }
  }

  lemma Split(place: nat, size: nat, inner: nat) returns (q: nat, r: nat)
    requires place < size * inner
    ensures inner > 0 && q == place / inner < size && r == place % inner < inner && place == q * inner + r
  {
    assert inner != 0;
    ProductGuard(size, place, inner);
    q, r := place / inner, place % inner;
  }

  lemma PlacedFirst(dims: seq<Dim>, first: int, rest: seq<int>)
    requires dims != [] && dims[0].low <= first <= dims[0].high && InBounds(dims[1..], rest)
    ensures InBounds(dims, [first] + rest)
    ensures Offset(dims, [first] + rest) == (first - dims[0].low) * Count(dims[1..]) + Offset(dims[1..], rest)
  {
    assert ([first] + rest)[1..] == rest;
  }

  /** The element at the lowest subscripts is the first, and one step of a subscript goes
      past as many elements as the dimensions inside it have. */
  lemma {:induction false} OffsetStarts(dims: seq<Dim>)
    ensures Offset(dims, Lows(dims)) == 0
  {
    if dims != [] {
      OffsetStarts(dims[1..]);
      assert Lows(dims)[1..] == Lows(dims[1..]);
    }
  }

  lemma {:induction false} OffsetSteps(dims: seq<Dim>, subs: seq<int>, d: nat)
    requires |subs| == |dims| && d < |dims|
    ensures Offset(dims, subs[d := subs[d] + 1]) == Offset(dims, subs) + Count(dims[d + 1..])
  {
    var next := subs[d := subs[d] + 1];
    if d == 0 {
      assert next[1..] == subs[1..];
      OneMore(subs[0] - dims[0].low, Count(dims[1..]));
    } else {
      OffsetSteps(dims[1..], subs[1..], d - 1);
      assert next[1..] == subs[1..][d - 1 := subs[d] + 1] && dims[1..][d..] == dims[d + 1..];
    }
  }

  lemma OneMore(a: int, inner: nat)
    ensures (a + 1) * inner == a * inner + inner
  {
  }

  /** Row-major order: the last subscript varies fastest. */
  ghost predicate Before(a: seq<int>, b: seq<int>)
    requires |a| == |b|
  {
    exists i :: 0 <= i < |a| && a[..i] == b[..i] && a[i] < b[i]
  }

  lemma BeforeHead(a: seq<int>, b: seq<int>)
    requires |a| == |b| > 0
    ensures Before(a, b) <==> a[0] < b[0] || (a[0] == b[0] && Before(a[1..], b[1..]))
  {
    if Before(a, b) {
      var i :| 0 <= i < |a| && a[..i] == b[..i] && a[i] < b[i];
      if i > 0 {
        assert a[..i][0] == a[0] && b[..i][0] == b[0];
        assert a[1..][..i - 1] == a[..i][1..] && b[1..][..i - 1] == b[..i][1..];
        assert a[1..][i - 1] < b[1..][i - 1];
      }
    }
    if a[0] < b[0] {
      assert a[..0] == b[..0];
    } else if a[0] == b[0] && Before(a[1..], b[1..]) {
      var i :| 0 <= i < |a| - 1 && a[1..][..i] == b[1..][..i] && a[1..][i] < b[1..][i];
      assert a[..i + 1] == [a[0]] + a[1..][..i] && b[..i + 1] == [b[0]] + b[1..][..i];
      assert a[i + 1] < b[i + 1];
    }
  }

  /** Places follow row-major order. */
  lemma {:induction false} OffsetMonotone(dims: seq<Dim>, a: seq<int>, b: seq<int>)
    requires InBounds(dims, a) && InBounds(dims, b)
    ensures Before(a, b) <==> Offset(dims, a) < Offset(dims, b)
  {
    if dims != [] {
      InBoundsTail(dims, a);
      InBoundsTail(dims, b);
      OffsetMonotone(dims[1..], a[1..], b[1..]);
      OffsetInRange(dims[1..], a[1..]);
      OffsetInRange(dims[1..], b[1..]);
      BeforeHead(a, b);
      var low, inner := dims[0].low, Count(dims[1..]);
      if a[0] < b[0] {
        Scaled(a[0] - low, b[0] - low, inner, Offset(dims[1..], a[1..]));
      } else if b[0] < a[0] {
        Scaled(b[0] - low, a[0] - low, inner, Offset(dims[1..], b[1..]));
      }
    }
  }

  // ------------------------------------------------------------- subscript checks

  datatype Access = At(place: int) | EmptyDimension | OutOfBounds(index: int, low: int, high: int) | Overflow

  predicate Within(d: Dim, index: int) {
    d.low <= index <= d.high
  }

  /** The innermost dimension whose subscript is out of bounds; no subscript is within
      an empty dimension. */
  function LastFault(dims: seq<Dim>, subs: seq<int>): (f: Option<nat>)
    requires |subs| == |dims|
    ensures f.None? ==> forall i :: 0 <= i < |dims| ==> Within(dims[i], subs[i])
    ensures f.Some? ==> f.value < |dims| && !Within(dims[f.value], subs[f.value])
                        && forall i :: f.value < i < |dims| ==> Within(dims[i], subs[i])
  {
    var last := |dims| - 1;
    if dims == [] then None
    else if !Within(dims[last], subs[last]) then Some(last)
    else LastFault(dims[..last], subs[..last])
  }

  /** What a subscripted access comes to: dimensions are taken innermost first, and a
      product or sum that leaves 64 bits comes before any fault further out. */
  function Addressed(dims: seq<Dim>, subs: seq<int>): Access
    requires |subs| == |dims|
  {
    match LastFault(dims, subs)
    case None => if Count(dims) > INT64_MAX then Overflow else At(Offset(dims, subs))
    case Some(d) =>
      if Count(dims[d + 1..]) > INT64_MAX then Overflow
      else if dims[d].low > dims[d].high then EmptyDimension
      else OutOfBounds(subs[d], dims[d].low, dims[d].high)
  }

  lemma FaultIs(dims: seq<Dim>, subs: seq<int>, d: nat)
    requires |subs| == |dims| && d < |dims| && !Within(dims[d], subs[d])
    requires forall i :: d < i < |dims| ==> Within(dims[i], subs[i])
    ensures LastFault(dims, subs) == Some(d)
  {
  }

  /** The sum and the stride after one more dimension; none when a product or a sum
      leaves 64 bits. */
  function Accumulate(linear: int, stride: int, low: int, high: int, index: int): Option<(int, int)> {
    if && InInt64(index - low) && InInt64((index - low) * stride) && InInt64(linear + (index - low) * stride)
       && InInt64(high - low) && InInt64(high - low + 1) && InInt64(stride * (high - low + 1))
    then Some((linear + (index - low) * stride, stride * (high - low + 1)))
    else None
  }

  /** One more dimension, the subscripts of those inside it being within bounds. */
  lemma AddressStep(dims: seq<Dim>, subs: seq<int>, d: nat)
    requires |subs| == |dims| && d < |dims| && Machine(dims) && Within(dims[d], subs[d])
    requires forall i :: d < i < |dims| ==> Within(dims[i], subs[i])
    requires Count(dims[d + 1..]) <= INT64_MAX
    ensures var next := Accumulate(Offset(dims[d + 1..], subs[d + 1..]), Count(dims[d + 1..]),
                                   dims[d].low, dims[d].high, subs[d]);
            match next
            case None => Addressed(dims, subs) == Overflow
            case Some(n) => n.0 == Offset(dims[d..], subs[d..]) && n.1 == Count(dims[d..]) <= INT64_MAX
  {
    hide Addressed;
    var stride, linear, away, size :=
      Count(dims[d + 1..]), Offset(dims[d + 1..], subs[d + 1..]), subs[d] - dims[d].low, Size(dims[d]);
    CountNext(dims, d);
    assert dims[d..][1..] == dims[d + 1..] && subs[d..][1..] == subs[d + 1..];
    OffsetInRange(dims[d + 1..], subs[d + 1..]);
    if InInt64(stride * size) {
      StepFits(stride, linear, away, size);
    } else {
      OverflowsFurtherOut(dims, subs, d);
    }
  }

  lemma StepFits(stride: nat, linear: nat, away: nat, size: nat)
    requires linear < stride && away < size && InInt64(stride * size)
    ensures InInt64(away) && InInt64(away * stride) && InInt64(linear + away * stride)
            && InInt64(size - 1) && InInt64(size)
  {
    Scaled(away, size, stride, linear);
    Grows(size, stride);
  }

  lemma OverflowsFurtherOut(dims: seq<Dim>, subs: seq<int>, d: nat)
    requires |subs| == |dims| && d < |dims| && Count(dims[d..]) > INT64_MAX
    requires forall i :: d <= i < |dims| ==> Within(dims[i], subs[i])
    ensures Addressed(dims, subs) == Overflow
  {
    hide Count;
    match LastFault(dims, subs)
    case None =>
      SuffixCount(dims, 0, d);
      assert dims[0..] == dims;
    case Some(f) =>
      SuffixCount(dims, f + 1, d);
  }

  lemma NoFaultIs(dims: seq<Dim>, subs: seq<int>)
    requires |subs| == |dims| && Count(dims[0..]) <= INT64_MAX
    requires forall i :: 0 <= i < |dims| ==> Within(dims[i], subs[i])
    ensures Addressed(dims, subs) == At(Offset(dims[0..], subs[0..]))
  {
    assert dims[0..] == dims && subs[0..] == subs;
  }

  /** The number of dimensions up to and with the innermost empty one. */
  function OuterDims(dims: seq<Dim>): (e: nat)
    ensures e <= |dims| && (e > 0 ==> Size(dims[e - 1]) == 0)
    ensures forall i :: e <= i < |dims| ==> Size(dims[i]) > 0
  {
    var last := |dims| - 1;
    if dims == [] then 0
    else if Size(dims[last]) == 0 then |dims|
    else OuterDims(dims[..last])
  }

  /** Some subscripts make the address computation leave 64 bits iff the dimensions
      inside the innermost empty one are too many to count. */
  lemma OverflowIff(dims: seq<Dim>)
    requires Machine(dims)
    ensures Count(dims[OuterDims(dims)..]) > INT64_MAX <==>
            exists subs :: |subs| == |dims| && (forall i :: 0 <= i < |subs| ==> InInt64(subs[i]))
                           && Addressed(dims, subs) == Overflow
  {
    if Count(dims[OuterDims(dims)..]) > INT64_MAX {
      LowestOverflow(dims);
      assert Addressed(dims, Lows(dims)) == Overflow;
    }
    if subs :| |subs| == |dims| && Addressed(dims, subs) == Overflow {
      InnerTooMany(dims, subs);
    }
  }

  function Lows(dims: seq<Dim>): seq<int> {
    seq(|dims|, i requires 0 <= i < |dims| => dims[i].low)
  }

  lemma LowestOverflow(dims: seq<Dim>)
    requires Count(dims[OuterDims(dims)..]) > INT64_MAX
    ensures Addressed(dims, Lows(dims)) == Overflow
  {
    hide Count, OuterDims, Offset;
    var e := OuterDims(dims);
    assert forall i :: e <= i < |dims| ==> Size(dims[i]) > 0 && Within(dims[i], Lows(dims)[i]);
    hide LastFault;
    if e > 0 {
      FaultIs(dims, Lows(dims), e - 1);
    } else {
      assert LastFault(dims, Lows(dims)).None?;
      assert dims[0..] == dims;
    }
  }

  lemma InnerTooMany(dims: seq<Dim>, subs: seq<int>)
    requires |subs| == |dims| && Addressed(dims, subs) == Overflow
    ensures Count(dims[OuterDims(dims)..]) > INT64_MAX
  {
    var e := OuterDims(dims);
    var f := match LastFault(dims, subs) case None => 0 case Some(d) => d + 1;
    assert dims[0..] == dims;
    assert e > 0 ==> !Within(dims[e - 1], subs[e - 1]);
    SuffixCount(dims, e, f);
  }

  /** An array with elements: every access either finds its element or is refused. */
  lemma CountedNeverOverflows(dims: seq<Dim>, subs: seq<int>)
    requires Accepted(dims) && Count(dims) > 0 && |subs| == |dims|
    ensures Addressed(dims, subs).At? <==> InBounds(dims, subs)
    ensures InBounds(dims, subs) ==> Addressed(dims, subs) == At(Offset(dims, subs))
    ensures Addressed(dims, subs) != Overflow
  {
    AcceptedIff(dims);
    CountZero(dims);
    if LastFault(dims, subs).Some? {
      assert dims[0..] == dims;
      SuffixCount(dims, 0, LastFault(dims, subs).value + 1);
    }
  }

  /** An array without elements may pass the extent check and still overflow before
      its empty dimension is seen. */
  lemma EmptyArrayMayOverflow()
    ensures var dims := [Dim(1, 0), Dim(INT64_MIN, INT64_MAX)];
            Machine(dims) && Accepted(dims) && Count(dims) == 0 && Addressed(dims, [1, INT64_MAX]) == Overflow
  {
    var dims := [Dim(1, 0), Dim(INT64_MIN, INT64_MAX)];
    assert dims[..0] == [];
    CountZero(dims);
    assert Size(dims[0]) == 0;
    FaultIs(dims, [1, INT64_MAX], 0);
    assert dims[1..] == [Dim(INT64_MIN, INT64_MAX)];
    assert Count(dims[1..]) == Size(dims[1]) * Count([]);
  }

  // ------------------------------------------------------------- arrays in memory

  datatype Error = NoDimension | ExtentOverflow | OutOfMemory | WrongSubscripts | Fault(access: Access)

  /** Bounds as they are passed and stored: a low and a high for each dimension. */
  function DimsOf(bounds: seq<int>): (dims: seq<Dim>)
    ensures |dims| == |bounds| / 2
    ensures forall i :: 0 <= i < |dims| ==> dims[i] == Dim(bounds[2 * i], bounds[2 * i + 1])
  {
    seq(|bounds| / 2, i requires 0 <= i < |bounds| / 2 => Dim(bounds[2 * i], bounds[2 * i + 1]))
  }

  /** Whether an array of these dimensions can be had: its elements countable, and its
      header and elements within 64 bits. */
  predicate Allocatable(dims: seq<Dim>) {
    Accepted(dims) && 8 + 16 * |dims| + 8 * Count(dims) <= INT64_MAX
  }

  /** The checks in front of every allocation: elements, header, total. */
  method Extent(dims: seq<Dim>) returns (count: Option<int>)
    requires 1 <= |dims| <= INT64_MAX && Machine(dims)
    ensures count == if Allocatable(dims) then Some(Count(dims)) else None
    ensures count.Some? <==>
              Count(dims[..FirstEmpty(dims)]) <= INT64_MAX && 8 + 16 * |dims| + 8 * Count(dims) <= INT64_MAX
  {
    hide Accepted, Count;
    AcceptedIs(dims);
    count := CountOk(dims);
    if count == None { return; }
    TotalExact(|dims|, count.value, 8);
    var header := HeaderOk(|dims|);
    if header == None { return None; }
    var total := TotalOk(count.value, header.value, 8);
    if total == None { return None; }
  }

  class ArrayI64 {
    const ndims: nat
    /** The bounds of each dimension, then the elements. */
    const words: array<int>

    ghost predicate Valid()
      reads words
    {
      && 1 <= ndims <= INT64_MAX && 2 * ndims <= words.Length
      && Machine(Dims()) && Allocatable(Dims()) && words.Length == 2 * ndims + Count(Dims())
    }

    ghost function Dims(): (dims: seq<Dim>)
      reads words
      requires 2 * ndims <= words.Length
      ensures |dims| == ndims
    {
      DimsOf(words[..2 * ndims])
    }

    ghost function Element(subs: seq<int>): int
      reads words
      requires Valid() && InBounds(Dims(), subs)
    {
      OffsetInRange(Dims(), subs);
      words[2 * ndims + Offset(Dims(), subs)]
    }

    constructor (ndims: nat, bounds: seq<int>, count: nat)
      requires |bounds| == 2 * ndims
      ensures this.ndims == ndims && fresh(words) && words.Length == 2 * ndims + count
      ensures words[..2 * ndims] == bounds && forall i :: 2 * ndims <= i < words.Length ==> words[i] == 0
    {
      this.ndims := ndims;
      words := new int[2 * ndims + count](_ => 0);
      new;
      forall i | 0 <= i < |bounds| {
        words[i] := bounds[i];
      }
    }

    /** `memory` says whether the collector finds the space. */
    static method Alloc(ndims: int, bounds: seq<int>, memory: bool) returns (r: Result<ArrayI64, Error>)
      requires InInt64(ndims) && (ndims >= 0 ==> |bounds| == 2 * ndims)
      requires forall i :: 0 <= i < |bounds| ==> InInt64(bounds[i])
      ensures ndims < 1 ==> r == Err(NoDimension)
      ensures ndims >= 1 && !Allocatable(DimsOf(bounds)) ==> r == Err(ExtentOverflow)
      ensures ndims >= 1 && Allocatable(DimsOf(bounds)) ==> if memory then r.Ok? else r == Err(OutOfMemory)
      ensures r.Ok? ==>
                && fresh(r.value) && fresh(r.value.words) && r.value.Valid()
                && r.value.ndims == ndims && r.value.Dims() == DimsOf(bounds)
                && forall subs :: InBounds(DimsOf(bounds), subs) ==> r.value.Element(subs) == 0
    {
      hide Allocatable, Accepted, Count, Offset;
      if ndims < 1 { return Err(NoDimension); }
      ghost var dims := DimsOf(bounds);
      var count := Extent(DimsOf(bounds));
      if count == None { return Err(ExtentOverflow); }
      if !memory { return Err(OutOfMemory); }
      var a := new ArrayI64(ndims, bounds, count.value);
      r := Ok(a);
      forall subs | InBounds(dims, subs) ensures a.Element(subs) == 0 { OffsetInRange(dims, subs); }
    }

    /** Call by value: an array of its own with the same bounds and elements, which
        needs no check that the original did not pass. */
    method Copy(memory: bool) returns (r: Result<ArrayI64, Error>)
      requires Valid()
      ensures !memory ==> r == Err(OutOfMemory)
      ensures memory ==> r.Ok? && fresh(r.value) && fresh(r.value.words) && r.value.Valid()
                         && r.value.ndims == ndims && r.value.words[..] == words[..]
    {
      hide Allocatable, Accepted, Count, Offset;
      var count := Extent(DimsOf(words[..2 * ndims]));
      if count == None { return Err(ExtentOverflow); }
      if !memory { return Err(OutOfMemory); }
      var a := new ArrayI64(ndims, words[..2 * ndims], count.value);
      forall i | 0 <= i < words.Length {
        a.words[i] := words[i];
      }
      assert a.words[..] == words[..];
      assert a.words[..2 * ndims] == words[..2 * ndims];
      assert a.Dims() == Dims();
      r := Ok(a);
    }

    /** The dense place of an element, innermost dimension first. */
    method LinearIndex(subs: seq<int>) returns (access: Access)
      requires Valid() && |subs| == ndims
      ensures access == Addressed(Dims(), subs)
    {
      hide Addressed, Accumulate, Allocatable, Offset, Count;
      ghost var dims := Dims();
      NothingYet(dims, subs);
      var linear, stride, dim := 0, 1, ndims;
      while dim > 0
        invariant 0 <= dim <= ndims
        invariant forall i :: dim <= i < ndims ==> Within(dims[i], subs[i])
        invariant stride == Count(dims[dim..]) <= INT64_MAX
        invariant linear == Offset(dims[dim..], subs[dim..])
      {
        dim := dim - 1;
        var low, high, index := words[2 * dim], words[2 * dim + 1], subs[dim];
        assert dims[dim] == Dim(low, high);
        if low > high || index < low || index > high {
          Refused(dims, subs, dim);
          return if low > high then EmptyDimension else OutOfBounds(index, low, high);
        }
        AddressStep(dims, subs, dim);
        var next := Accumulate(linear, stride, low, high, index);
        if next == None { return Overflow; }
        linear, stride := next.value.0, next.value.1;
      }
      NoFaultIs(dims, subs);
      return At(linear);
    }

    /** Reads one element. */
    method Load(subs: seq<int>) returns (r: Result<int, Error>)
      requires Valid()
      ensures |subs| != ndims ==> r == Err(WrongSubscripts)
      ensures |subs| == ndims ==>
                match Addressed(Dims(), subs)
                case At(k) => InBounds(Dims(), subs) && r == Ok(Element(subs))
                case fault => r == Err(Fault(fault))
    {
      hide Addressed, Allocatable, Count, Offset;
      if |subs| != ndims { return Err(WrongSubscripts); }
      var access := LinearIndex(subs);
      if !access.At? { return Err(Fault(access)); }
      AtElement(Dims(), subs);
      r := Ok(words[2 * ndims + access.place]);
    }

    /** Writes one element, and no other. */
    method Store(subs: seq<int>, value: int) returns (failure: Option<Error>)
      requires Valid()
      modifies words
      ensures Valid() && words[..2 * ndims] == old(words[..2 * ndims])
      ensures |subs| != ndims ==> failure == Some(WrongSubscripts)
      ensures |subs| == ndims ==>
                match Addressed(Dims(), subs)
                case At(k) => failure == None && InBounds(Dims(), subs)
                case fault => failure == Some(Fault(fault))
      ensures failure.Some? ==> words[..] == old(words[..])
      ensures failure == None ==>
                forall other :: InBounds(Dims(), other) ==>
                  Element(other) == if other == subs then value else old(Element(other))
    {
      hide Addressed, Allocatable, Count, Offset;
      if |subs| != ndims { return Some(WrongSubscripts); }
      var access := LinearIndex(subs);
      if !access.At? { return Some(Fault(access)); }
      ghost var dims := Dims();
      AtElement(dims, subs);
      words[2 * ndims + access.place] := value;
      assert words[..2 * ndims] == old(words[..2 * ndims]);
      failure := None;
      forall other | InBounds(dims, other)
        ensures Element(other) == if other == subs then value else old(Element(other))
      {
        SubscriptsOfOffset(dims, other);
        SubscriptsOfOffset(dims, subs);
      }
    }
  }

  lemma AtElement(dims: seq<Dim>, subs: seq<int>)
    requires |subs| == |dims| && Addressed(dims, subs).At?
    ensures InBounds(dims, subs) && Addressed(dims, subs) == At(Offset(dims, subs))
    ensures 0 <= Offset(dims, subs) < Count(dims)
  {
    OffsetInRange(dims, subs);
  }

  lemma Refused(dims: seq<Dim>, subs: seq<int>, d: nat)
    requires |subs| == |dims| && d < |dims| && !Within(dims[d], subs[d]) && Count(dims[d + 1..]) <= INT64_MAX
    requires forall i :: d < i < |dims| ==> Within(dims[i], subs[i])
    ensures Addressed(dims, subs)
            == if dims[d].low > dims[d].high then EmptyDimension
               else OutOfBounds(subs[d], dims[d].low, dims[d].high)
  {
    FaultIs(dims, subs, d);
  }

  lemma NothingYet(dims: seq<Dim>, subs: seq<int>)
    requires |subs| == |dims|
    ensures Count(dims[|dims|..]) == 1 && Offset(dims[|dims|..], subs[|dims|..]) == 0
  {
  }
}
