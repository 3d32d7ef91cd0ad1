/** The random stream of env.c: a multiplicative congruential generator of modulus 2**31
    and multiplier 5**27, held in an integer variable of the program whose sign selects
    antithetic drawings; and the integer divisions beside it. */
module RandomStream {
  import opened Prelude
  import opened Powers

  const BITS: nat := 31
  const MODULUS: nat := 0x8000_0000
  const MULTIPLIER: nat := 7450580596923828125

  // ------------------------------------------------------------- one draw

  /** The C remainder, which truncates towards zero. */
  function TruncRem(x: int, m: nat): int
    requires m > 0
  {
    if x >= 0 then x % m else -((-x) % m)
  }

  /** The branch that multiplies in 128 bits. */
  function Advance(u: int): int {
    TruncRem(u * MULTIPLIER, MODULUS)
  }

  /** The branch that multiplies in 64 bits; casts and products wrap. */
  function AdvancePortable(u: int): int {
    var mul, seed := MULTIPLIER % MODULUS, (u % UINT64) % MODULUS;
    ((seed * mul) % UINT64) % MODULUS
  }

  /** Keeping the low bits of a 64-bit product is enough, and that product fits. */
  lemma AdvanceBranchesAgree(u: int)
    requires 0 <= u <= INT64_MAX
    ensures AdvancePortable(u) == Advance(u)
    ensures (u % MODULUS) * (MULTIPLIER % MODULUS) < UINT64
  {
    var seed, mul := u % MODULUS, MULTIPLIER % MODULUS;
    assert seed * mul <= MODULUS * mul;
    ModProduct(u, MULTIPLIER, MODULUS);
  }

  /** The seed after a draw. */
  function NextSeed(seed: int): int {
    if seed < 0 then -Advance(-seed) else Advance(seed)
  }

  /** The number drawn. Its 31 significant bits are exact in a double, as is its
      complement. */
  function Drawing(seed: int): real {
    var val := Advance(Abs(seed)) as real / MODULUS as real;
    if seed < 0 && val != 0.0 then 1.0 - val else val
  }

  lemma AdvanceRange(u: nat)
    ensures 0 <= Advance(u) < MODULUS && Advance(u) == (u * MULTIPLIER) % MODULUS
  {
  }

  /** A drawing is a proportion; the stream of the opposite sign goes through the same
      magnitudes and draws the complements. */
  lemma Antithetic(seed: int)
    ensures 0.0 <= Drawing(seed) < 1.0
    ensures NextSeed(-seed) == -NextSeed(seed)
    ensures Drawing(seed) != 0.0 ==> Drawing(seed) + Drawing(-seed) == 1.0
    ensures Drawing(seed) == 0.0 <==> NextSeed(seed) == 0
  {
    AdvanceRange(Abs(seed));
  }

  /** A drawing is the seed it leaves behind as a proportion of the modulus, and for a
      negative seed what is missing from 1; 0 goes with a seed of 0. */
  lemma DrawingIs(seed: int)
    ensures seed >= 0 ==>
              NextSeed(seed) >= 0 && Drawing(seed) * 2147483648.0 == NextSeed(seed) as real
    ensures seed < 0 && NextSeed(seed) != 0 ==>
              NextSeed(seed) < 0 && (1.0 - Drawing(seed)) * 2147483648.0 == (-NextSeed(seed)) as real
    ensures Drawing(seed) == 0.0 <==> NextSeed(seed) == 0
    ensures seed >= 0 ==> NextSeed(seed) == (seed * 7450580596923828125) % 0x8000_0000
    ensures seed < 0 ==> NextSeed(seed) == -((-seed * 7450580596923828125) % 0x8000_0000)
  {
    AdvanceRange(Abs(seed));
  }

  class Stream {
    var seed: int

    constructor (seed: int)
      ensures this.seed == seed
    {
      this.seed := seed;
    }

    /** A basic drawing; none for the one seed that cannot be negated. */
    method BasicDraw() returns (val: Option<real>)
      requires InInt64(seed)
      modifies this
      ensures InInt64(seed)
      ensures old(seed) == INT64_MIN ==> val == None && seed == old(seed)
      ensures old(seed) != INT64_MIN ==> val == Some(Drawing(old(seed))) && seed == NextSeed(old(seed))
      ensures old(seed) >= 0 ==>
                seed == (old(seed) * 7450580596923828125) % 0x8000_0000
                && val.Some? && val.value * 2147483648.0 == seed as real
      ensures INT64_MIN < old(seed) < 0 ==>
                seed == -((-old(seed) * 7450580596923828125) % 0x8000_0000) && val.Some?
                && if seed == 0 then val.value == 0.0 else (1.0 - val.value) * 2147483648.0 == (-seed) as real
    {
      DrawingIs(seed);
      var antithetic := seed < 0;
      if antithetic && !InInt64(-seed) { return None; }
      var u := if antithetic then -seed else seed;
      AdvanceRange(u);
      var next := Advance(u);
      seed := if antithetic then -next else next;
      var x := next as real / MODULUS as real;
      val := Some(if !antithetic then x else if x != 0.0 then 1.0 - x else 0.0);
    }
  }

  // ------------------------------------------------------------- the period

  /** Odd powers of the multiplier, and even ones: 2 divides what exceeds 1 in the t-th
      power exactly two times more often than it divides t. */
  lemma {:induction false} PowerExcess(g: int, m: int, t: nat) returns (c: int)
    requires t > 0 && g == 1 + 4 * m && m % 2 == 1
    ensures c % 2 == 1 && Pow(g, t) == 1 + Pow2(2 + Twos(t)) * c
    decreases t
  {
    if t == 1 {
      c := m;
    } else if t % 2 == 0 {
      var h := PowerExcess(g, m, t / 2);
      PowAdd(g, t / 2, t / 2);
      c := SquareExcess(Pow(g, t / 2), Twos(t / 2), h);
    } else {
      var h := PowerExcess(g, m, t - 1);
      c := NextExcess(Pow(g, t - 1), Twos(t - 1), h, m);
    }
  }

  lemma SquareExcess(x: int, v: nat, h: int) returns (c: int)
    requires h % 2 == 1 && x == 1 + Pow2(2 + v) * h
    ensures c % 2 == 1 && x * x == 1 + Pow2(3 + v) * c
  {
    var p, z := Pow2(1 + v), Pow2(v) * h;
    var y := p * h;
    assert p == 2 * Pow2(v) && Pow2(2 + v) == 2 * p && Pow2(3 + v) == 4 * p;
    c := h + h * y;
    Square(x, p, h, y);
    Doubled(Pow2(v), h, z, p, y);
  }

  lemma Square(x: int, p: int, h: int, y: int)
    requires y == p * h && x == 1 + 2 * p * h
    ensures x * x == 1 + 4 * p * (h + h * y)
  {
    assert x == 1 + 2 * y;
    assert p * (h * y) == y * y;
    assert x * x == 1 + 4 * y + 4 * (y * y);
    Distribute(h, h * y, p);
  }

  lemma Doubled(a: int, h: int, z: int, p: int, y: int)
    requires h % 2 == 1 && z == a * h && p == 2 * a && y == p * h
    ensures (h + h * y) % 2 == 1
  {
    assert y == 2 * z;
    assert h * y == 2 * (h * z);
  }

  lemma NextExcess(x: int, v: nat, h: int, m: int) returns (c: int)
    requires v > 0 && m % 2 == 1 && x == 1 + Pow2(2 + v) * h
    ensures c % 2 == 1 && (1 + 4 * m) * x == 1 + Pow2(2) * c
  {
    var p := Pow2(v - 1);
    var y := p * h;
    assert Pow2(v) == 2 * p && Pow2(1 + v) == 4 * p && Pow2(2 + v) == 8 * p;
    assert Pow2(0) == 1 && Pow2(1) == 2 && Pow2(2) == 4;
    assert 8 * p * h == 8 * y;
    c := OddSum(m, y);
  }

  lemma OddSum(m: int, y: int) returns (c: int)
    requires m % 2 == 1
    ensures c % 2 == 1 && (1 + 4 * m) * (1 + 8 * y) == 1 + 4 * c
  {
    var w := m * y;
    c := m + 2 * (y + 4 * w);
    assert (1 + 4 * m) * (1 + 8 * y) == 1 + 8 * y + 4 * m + 32 * w;
  }

  /** The seed after `t` draws. */
  function Drawn(seed: int, t: nat): int {
    if t == 0 then seed else NextSeed(Drawn(seed, t - 1))
  }

  lemma {:induction false} DrawnIs(seed: nat, t: nat)
    requires seed < MODULUS
    ensures Drawn(seed, t) == (seed * Pow(MULTIPLIER, t)) % MODULUS
  {
    if t > 0 {
      DrawnIs(seed, t - 1);
      NextIs(seed, Pow(MULTIPLIER, t - 1));
    }
  }

  lemma NextIs(seed: nat, p: int)
    ensures var x := (seed * p) % MODULUS; NextSeed(x) == (seed * (MULTIPLIER * p)) % MODULUS
  {
    hide Advance;
    AdvanceRange((seed * p) % MODULUS);
    ReducedFirst(seed * p);
    Reordered(seed, MULTIPLIER, p);
  }

  lemma Reordered(a: int, b: int, c: int)
    ensures a * (b * c) == a * c * b
  {
  }

  lemma ReducedFirst(x: int)
    ensures ((x % MODULUS) * MULTIPLIER) % MODULUS == (x * MULTIPLIER) % MODULUS
  {
    ModProduct(x, MULTIPLIER, MODULUS);
    ModProduct(x % MODULUS, MULTIPLIER, MODULUS);
  }

  lemma {:induction false} DrawnOpposite(seed: int, t: nat)
    ensures Drawn(-seed, t) == -Drawn(seed, t)
  {
    if t > 0 {
      DrawnOpposite(seed, t - 1);
      Antithetic(Drawn(seed, t - 1));
    }
  }

  /** The multiplier is 5**27, and one more than four times an odd number. */
  lemma MultiplierIs()
    ensures MULTIPLIER == Pow(5, 27) && MODULUS == Pow2(BITS)
    ensures MULTIPLIER == 1 + 4 * 1862645149230957031
  {
    assert Pow(5, 9) == 1953125;
    PowAdd(5, 9, 9);
    PowAdd(5, 18, 9);
    assert Pow2(8) == 256;
    Pow2Add(8, 8);
    Pow2Add(16, 8);
    Pow2Add(24, 7);
  }

  lemma SameRemainder(x: int, s: nat, m: nat)
    requires s < m
    ensures x % m == s <==> (x - s) % m == 0
  {
    var q, r := x / m, x % m;
    assert x == q * m + r;
    if r == s {
      ModUnique(x - s, q, 0, m);
    }
    if (x - s) % m == 0 {
      assert x - s == ((x - s) / m) * m;
      ModUnique(x, (x - s) / m, s, m);
    }
  }

  /** A seed is met again after `t` draws iff 2 divides `t` and the seed together 29
      times. */
  lemma ReturnsIff(seed: nat, t: nat)
    requires 0 < seed < MODULUS && t > 0
    ensures Drawn(seed, t) == seed <==> Twos(t) + Twos(seed) >= 29
  {
    hide Pow2, Twos, Pow, Drawn;
    MultiplierIs();
    DrawnIs(seed, t);
    var odd := Excess(seed, t);
    SameRemainder(seed * Pow(MULTIPLIER, t), seed, MODULUS);
    DividesIff(BITS, Twos(seed) + 2 + Twos(t), odd);
  }

  lemma Excess(seed: nat, t: nat) returns (odd: int)
    requires seed > 0 && t > 0
    ensures odd % 2 == 1
    ensures seed * Pow(MULTIPLIER, t) - seed == Pow2(Twos(seed) + 2 + Twos(t)) * odd
  {
    hide Pow2, Twos, Pow;
    MultiplierIs();
    var c := PowerExcess(MULTIPLIER, 1862645149230957031, t);
    Parts(seed);
    Pow2Add(Twos(seed), 2 + Twos(t));
    odd := OddPart(seed) * c;
    OddProduct(OddPart(seed), c);
    ExcessProduct(seed, Pow2(Twos(seed)), OddPart(seed), Pow2(2 + Twos(t)), c);
  }

  lemma ExcessProduct(seed: int, a: int, odd: int, p: int, c: int)
    requires seed == a * odd
    ensures seed * (1 + p * c) - seed == a * p * (odd * c)
  {
    assert seed * (1 + p * c) == seed + seed * (p * c);
    assert a * odd * (p * c) == a * p * (odd * c);
  }

  lemma TwosAtLeast(t: nat, k: nat)
    requires t > 0
    ensures Twos(t) >= k <==> t % Pow2(k) == 0
  {
    Parts(t);
    DividesIff(k, Twos(t), OddPart(t));
  }

  const PERIOD: nat := 0x2000_0000

  /** An odd seed stays odd and within range, and is met again after exactly the
      multiples of 2**29 draws; so is an odd seed of the opposite sign. */
  lemma Period(seed: int, t: nat)
    requires Abs(seed) < MODULUS && Abs(seed) % 2 == 1
    ensures Drawn(seed, t) == seed <==> t % PERIOD == 0
    ensures Abs(Drawn(seed, t)) < MODULUS && Abs(Drawn(seed, t)) % 2 == 1
  {
    var s := Abs(seed);
    DrawnOpposite(s, t);
    MultiplierIs();
    Pow2Add(29, 2);
    if t > 0 {
      ReturnsIff(s, t);
      TwosAtLeast(t, 29);
    }
    OddForever(s, t);
  }

  lemma {:induction false} OddForever(seed: nat, t: nat)
    requires seed < MODULUS && seed % 2 == 1
    ensures 0 < Drawn(seed, t) < MODULUS && Drawn(seed, t) % 2 == 1
  {
    if t > 0 {
      OddForever(seed, t - 1);
      var u := Drawn(seed, t - 1);
      AdvanceRange(u);
      OddProduct(u, MULTIPLIER);
      LowBit(u * MULTIPLIER);
    }
  }

  lemma LowBit(x: nat)
    ensures (x % MODULUS) % 2 == x % 2
  {
    var q, r := x / MODULUS, x % MODULUS;
    assert x == 2 * (q * 0x4000_0000) + r;
  }

  /** The draws before an odd seed is met again are all different. */
  lemma AllDifferent(seed: nat, t: nat, u: nat)
    requires seed < MODULUS && seed % 2 == 1 && t < u < t + PERIOD
    ensures Drawn(seed, t) != Drawn(seed, u)
  {
    OddForever(seed, t);
    DrawnAdd(seed, t, u - t);
    Period(Drawn(seed, t), u - t);
  }

  lemma {:induction false} DrawnAdd(seed: int, t: nat, u: nat)
    ensures Drawn(seed, t + u) == Drawn(Drawn(seed, t), u)
  {
    if u > 0 {
      DrawnAdd(seed, t, u - 1);
    }
  }

  // ------------------------------------------------------------- integer division

  datatype DivisionError = ZeroDivisor | QuotientOverflow

  /** C division, which truncates towards zero. */
  function TruncDiv(i: int, j: int): int
    requires j != 0
  {
    if i >= 0 then Abs(i) / j else -(Abs(i) / j)
  }

  function Rem(i: int, j: int): Result<int, DivisionError> {
    if j == 0 then Err(ZeroDivisor)
    else if !InInt64(TruncDiv(i, j)) then Err(QuotientOverflow)
    else Ok(i - TruncDiv(i, j) * j)
  }

  function Mod(i: int, j: int): Result<int, DivisionError> {
    match Rem(i, j)
    case Err(e) => Err(e)
    case Ok(res) =>
      if res == 0 then Ok(0)
      else if (res > 0) != (j > 0) then Ok(res + j)
      else Ok(res)
  }

  /** REM leaves the dividend's sign and MOD the divisor's, in both cases less than the
      divisor and differing from the dividend by a multiple of it; they fail only for
      the divisor 0 and for the one quotient without a 64-bit form. */
  lemma RemMod(i: int, j: int)
    requires InInt64(i) && InInt64(j)
    ensures Rem(i, j).Err? <==> Mod(i, j).Err?
    ensures Rem(i, j).Err? <==> j == 0 || (i == INT64_MIN && j == -1)
    ensures Rem(i, j).Ok? ==>
              var r, m := Rem(i, j).value, Mod(i, j).value;
              && Abs(r) < Abs(j) && (r == 0 || (r > 0 <==> i > 0)) && (i - r) % j == 0
              && Abs(m) < Abs(j) && (m == 0 || (m > 0 <==> j > 0)) && (i - m) % j == 0
              && InInt64(m)
  {
    hide TruncDiv;
    if j != 0 {
      TruncDivIs(i, j);
      Congruent(i, j, TruncDiv(i, j), i - TruncDiv(i, j) * j);
    }
  }

  lemma Congruent(i: int, j: int, q: int, r: int)
    requires j != 0 && r == i - q * j
    ensures (i - r) % j == 0 && (i - (r + j)) % j == 0
  {
    Distribute(q, -1, j);
    MultipleOf(i - r, q, j);
    MultipleOf(i - (r + j), q - 1, j);
  }

  lemma MultipleOf(x: int, q: int, j: int)
    requires j != 0 && x == q * j
    ensures x % j == 0
  {
    Distribute(q, -(x / j), j);
    SmallMultiple(q - x / j, j, x % j);
  }

  lemma TruncDivIs(i: int, j: int)
    requires InInt64(i) && InInt64(j) && j != 0
    ensures var r := i - TruncDiv(i, j) * j; Abs(r) < Abs(j) && (r == 0 || (r > 0 <==> i > 0))
    ensures InInt64(TruncDiv(i, j)) <==> !(i == INT64_MIN && j == -1)
  {
    var n := Abs(i);
    Truncated(i, j, n / j, n % j, TruncDiv(i, j));
  }

  lemma Truncated(i: int, j: int, q: int, r: int, t: int)
    requires InInt64(i) && InInt64(j) && j != 0 && Abs(i) == q * j + r && 0 <= r < Abs(j)
    requires t == if i >= 0 then q else -q
    ensures Abs(i - t * j) < Abs(j) && (i - t * j == 0 || (i - t * j > 0 <==> i > 0))
    ensures InInt64(t) <==> !(i == INT64_MIN && j == -1)
  {
    QuotientRange(Abs(i), j, q, r);
    assert -q * j == -(q * j);
  }

  lemma QuotientRange(n: nat, j: int, q: int, r: int)
    requires j != 0 && n == q * j + r && 0 <= r < Abs(j)
    ensures j > 0 ==> q >= 0
    ensures j < 0 ==> q <= 0
    ensures Abs(j) == 1 ==> Abs(q) == n
    ensures Abs(j) >= 2 ==> 2 * Abs(q) <= n
  {
    AbsProduct(q, j);
    ProductAtLeast(Abs(q), Abs(j));
  }

  lemma ProductAtLeast(a: nat, b: nat)
    ensures b == 1 ==> a * b == a
    ensures b >= 2 ==> a * b >= 2 * a
  {
    if b >= 2 {
      AtLeastOnce(b - 1, a);
      Distribute(1, b - 1, a);
    }
  }
}
