/** Remainders of products, and powers of two: what wraps around in 64 bits. */
module Powers {
  import opened Prelude

  const UINT64: nat := 0x1_0000_0000_0000_0000

  // ------------------------------------------------------------- remainders

  lemma DivMod(a: nat, p: nat)
    requires p > 0
    ensures a / p >= 0 && 0 <= a % p < p && a == (a / p) * p + a % p
  {
    NotNegative(a, a / p, p, a % p);
  }

  lemma NotNegative(a: nat, q: int, p: nat, r: int)
    requires a == q * p + r && r < p
    ensures q >= 0
  {
    assert q <= -1 ==> q * p <= -1 * p;
  }

  lemma AbsProduct(d: int, m: int)
    ensures Abs(d * m) == Abs(d) * Abs(m)
    ensures d != 0 ==> Abs(d * m) >= Abs(m)
    ensures (d >= 0 && m >= 0) || (d <= 0 && m <= 0) ==> d * m >= 0
    ensures (d >= 0 && m <= 0) || (d <= 0 && m >= 0) ==> d * m <= 0
  {
    assert -d * m == -(d * m) && d * -m == -(d * m) && -d * -m == d * m;
    AtLeastOnce(Abs(d), Abs(m));
    AtLeastOnce(Abs(m), Abs(d));
  }

  lemma AtLeastOnce(d: nat, m: nat)
    ensures d * m >= 0
    ensures d > 0 ==> d * m >= m
  {
  }

  lemma SmallMultiple(d: int, m: int, r: int)
    requires m != 0 && d * m == r && Abs(r) < Abs(m)
    ensures d == 0 && r == 0
  {
    AbsProduct(d, m);
  }

  lemma ModUnique(x: int, q: int, r: int, m: nat)
    requires 0 <= r < m && x == q * m + r
    ensures x % m == r && x / m == q
  {
    SameQuotient(q, r, x / m, x % m, m);
  }

  lemma SameQuotient(q: int, r: int, q': int, r': int, m: nat)
    requires 0 <= r < m && 0 <= r' < m && q * m + r == q' * m + r'
    ensures q == q' && r == r'
  {
    assert (q - q') * m == q * m - q' * m;
    SmallMultiple(q - q', m, r' - r);
  }

  lemma ModProduct(a: int, b: int, m: nat)
    requires m > 0
    ensures (a * b) % m == ((a % m) * (b % m)) % m
  {
    var x, y := a % m, b % m;
    var k := SplitProduct(a, b, m, a / m, x, b / m, y);
    var r, s := (x * y) / m, (x * y) % m;
    assert a * b == (k + r) * m + s by { Distribute(k, r, m); }
    ModUnique(a * b, k + r, s, m);
  }

  lemma Distribute(k: int, r: int, m: int)
    ensures (k + r) * m == k * m + r * m
  {
  }

  lemma SplitProduct(a: int, b: int, m: int, p: int, x: int, q: int, y: int) returns (k: int)
    requires a == p * m + x && b == q * m + y
    ensures a * b == k * m + x * y
  {
    k := p * b + x * q;
    assert a * b == p * m * b + x * b;
    assert x * b == x * (q * m) + x * y;
    assert k * m == p * b * m + x * q * m;
    assert p * m * b == p * b * m && x * (q * m) == x * q * m;
  }

  lemma Assoc(a: int, b: int, c: int)
    ensures a * (b * c) == a * b * c
  {
  }

  // ------------------------------------------------------------- powers of two

  function Pow(b: int, n: nat): int {
    if n == 0 then 1 else b * Pow(b, n - 1)
  }

  function Pow2(n: nat): (p: nat)
    ensures p > 0
  {
    if n == 0 then 1 else 2 * Pow2(n - 1)
  }

  /** How often 2 divides `n`. */
  function Twos(n: nat): (v: nat)
    requires n > 0
  {
    if n % 2 == 0 then 1 + Twos(n / 2) else 0
  }

  function OddPart(n: nat): (m: nat)
    requires n > 0
    ensures m % 2 == 1
  {
    if n % 2 == 0 then OddPart(n / 2) else n
  }

  lemma {:induction false} Parts(n: nat)
    requires n > 0
    ensures n == Pow2(Twos(n)) * OddPart(n)
  {
    if n % 2 == 0 {
      Parts(n / 2);
      Assoc(2, Pow2(Twos(n / 2)), OddPart(n / 2));
    }
  }

  lemma {:induction false} PowAdd(b: int, m: nat, n: nat)
    ensures Pow(b, m + n) == Pow(b, m) * Pow(b, n)
  {
    if m > 0 {
      PowAdd(b, m - 1, n);
      Assoc(b, Pow(b, m - 1), Pow(b, n));
    }
  }

  lemma {:induction false} Pow2Add(m: nat, n: nat)
    ensures Pow2(m + n) == Pow2(m) * Pow2(n)
  {
    if m > 0 {
      Pow2Add(m - 1, n);
      Assoc(2, Pow2(m - 1), Pow2(n));
    }
  }

  lemma OddProduct(a: int, b: int)
    requires a % 2 == 1 && b % 2 == 1
    ensures (a * b) % 2 == 1
  {
    ModProduct(a, b, 2);
  }

  /** A power of two divides another times an odd number iff it is no larger. */
  lemma DividesIff(k: nat, n: nat, odd: int)
    requires odd % 2 == 1
    ensures (Pow2(n) * odd) % Pow2(k) == 0 <==> k <= n
  {
    if k <= n {
      Pow2Add(n - k, k);
      Regroup(Pow2(n - k), Pow2(k), odd);
      ModUnique(Pow2(n) * odd, Pow2(n - k) * odd, 0, Pow2(k));
    } else {
      Pow2Add(n, k - n);
      NotDivided(Pow2(n), odd, Pow2(k - n - 1), Pow2(k));
    }
  }

  lemma NotDivided(p: nat, odd: int, rest: int, m: nat)
    requires p > 0 && odd % 2 == 1 && m == p * (2 * rest) && m > 0
    ensures (p * odd) % m != 0
  {
    var q := (p * odd) / m;
    if (p * odd) % m == 0 {
      Odd(p, odd, rest, q);
    }
  }

  lemma Regroup(a: int, m: int, odd: int)
    ensures a * m * odd == a * odd * m
  {
  }

  lemma Odd(p: nat, odd: int, rest: int, q: int)
    requires p > 0 && odd % 2 == 1
    ensures p * odd != q * (p * (2 * rest))
  {
    assert q * (p * (2 * rest)) == p * (2 * (q * rest));
    var d := odd - 2 * (q * rest);
    assert p * d == p * odd - p * (2 * (q * rest));
    assert d != 0;
    assert p * d != 0;
  }
}
