/**
 The credit charge for a reply. The program divides in binary64 floating point and
 takes the ceiling; the charge is proved equal to an integer ceiling division.
 */
module Credits {
  const U32_MAX: nat := 0xFFFF_FFFF
  const I32_MIN: int := -0x8000_0000
  const I32_MAX: int := 0x7FFF_FFFF
  const MAX_CHARGE: nat := 17_179_870

  type Tokens = n: nat | n <= U32_MAX

  datatype RequestKind = Simple | Analysis | CsvMapping | MonthlyReport | DeepReport

  /** The reservation made before a call. */
  function EstimatedCost(kind: RequestKind): (cost: int)
    ensures 1 <= cost <= 50
    ensures (kind.Simple? <==> cost == 1) && (kind.Analysis? <==> cost == 5) && (kind.CsvMapping? <==> cost == 10)
    ensures (kind.MonthlyReport? <==> cost == 25) && (kind.DeepReport? <==> cost == 50)
  {
    match kind
    case Simple => 1
    case Analysis => 5
    case CsvMapping => 10
    case MonthlyReport => 25
    case DeepReport => 50
  }

  // ---- binary64 ----

  const SIG: int := 0x20_0000_0000_0000      // 2^53
  const HALF_SIG: int := 0x10_0000_0000_0000 // 2^52
  const UNIT_EXP: nat := 1074

  function Pow2(k: nat): (p: nat)
    ensures p >= 1
  {
    if k == 0 then 1 else 2 * Pow2(k - 1)
  }

  /**
   The finite values of binary64, in units of the smallest one, 2^-1074: a significand
   below 2^53 shifted by a bounded exponent.
   */
  ghost predicate IsDouble(x: int) {
    exists m: int, s: nat :: IsDoubleWith(x, m, s)
  }

  ghost predicate IsDoubleWith(x: int, m: int, s: nat) {
    -SIG < m < SIG && s <= 2045 && x == m * Pow2(s)
  }

  /** 1000 * 2^1074 times the distance between the double `x` and the quotient `w / 1000`. */
  ghost function Error(w: nat, x: int): nat {
    var d := 1000 * x - w * Pow2(UNIT_EXP);
    if d >= 0 then d else -d
  }

  /** `x` is a double, and no double is nearer to `w / 1000`. */
  ghost predicate NearestDouble(w: nat, x: int) {
    IsDouble(x) && forall y :: IsDouble(y) ==> Error(w, x) <= Error(w, y)
  }

  /** A non-negative dyadic rational `num / 2^exp`. */
  datatype Dyadic = Dyadic(num: nat, exp: nat) {
    ghost function InUnits(): int
      requires exp <= UNIT_EXP
    {
      num * Pow2(UNIT_EXP - exp)
    }
  }

  /** How far to shift `w / 1000` so that its integer part has exactly 53 bits. */
  function Shift(w: nat, k: nat): (r: nat)
    requires 0 < w && Pow2(k) * w < 1000 * SIG
    ensures 1000 * HALF_SIG <= Pow2(r) * w < 1000 * SIG
    decreases 1000 * SIG - Pow2(k) * w
  {
    if Pow2(k) * w >= 1000 * HALF_SIG then k
    else
      Doubled(w, k);
      Shift(w, k + 1)
  }

  lemma Doubled(w: nat, k: nat)
    requires 0 < w
    ensures Pow2(k + 1) * w == 2 * (Pow2(k) * w) && Pow2(k) * w > 0
  {
  }

  /** `w / 1000.0` in binary64: round to nearest, ties to even. */
  function DivideBy1000(w: nat): Dyadic
    requires w < 1000 * SIG
  {
    if w == 0 then Dyadic(0, 0)
    else
      var k := Shift(w, 0);
      var n := Pow2(k) * w;
      var lo, rem := n / 1000, n % 1000;
      if rem > 500 || (rem == 500 && lo % 2 == 1) then Dyadic(lo + 1, k) else Dyadic(lo, k)
  }

  function Ceil(d: Dyadic): nat {
    var p := Pow2(d.exp);
    CeilDiv(d.num, p)
  }

  function CeilDiv(n: nat, p: nat): (c: nat)
    requires p > 0
    ensures p * (c - 1) < n <= p * c
  {
    var c := (n + p - 1) / p;
    assert p * c <= n + p - 1 < p * c + p;
    c
  }

  /** Rust's saturating float-to-`i32` cast, on an integral value. */
  function AsI32(n: int): int {
    if n < I32_MIN then I32_MIN else if n > I32_MAX then I32_MAX else n
  }

  function CreditsForTokens(prompt: Tokens, completion: Tokens): int {
    var weighted := prompt + 3 * completion;
    var credits := AsI32(Ceil(DivideBy1000(weighted)));
    if credits > 1 then credits else 1
  }

  // ---- The computed quotient is a nearest double ----

  lemma {:induction false} Pow2Add(a: nat, b: nat)
    ensures Pow2(a + b) == Pow2(a) * Pow2(b)
    decreases b
  {
    if b == 0 {
    } else {
      var p, q := Pow2(a), Pow2(b - 1);
      Pow2Add(a, b - 1);
      assert Pow2(a + b) == 2 * Pow2(a + b - 1);
      Regroup(p, 2, q);
      assert p * (2 * q) == 2 * (p * q);
    }
  }

  lemma Pow2Sum(a: nat, b: nat, pa: nat, pb: nat)
    requires Pow2(a) == pa && Pow2(b) == pb
    ensures Pow2(a + b) == pa * pb
  {
    Pow2Add(a, b);
  }

  lemma Pow2Constants()
    ensures Pow2(28) == 0x1000_0000 && Pow2(63) == 0x8000_0000_0000_0000
  {
    assert Pow2(7) == 0x80;
    Pow2Sum(7, 7, 0x80, 0x80);
    Pow2Sum(14, 14, 0x4000, 0x4000);
    Pow2Sum(28, 28, 0x1000_0000, 0x1000_0000);
    Pow2Sum(56, 7, 0x100_0000_0000_0000, 0x80);
  }

  lemma ShiftIsSmall(w: nat, k: nat)
    requires 0 < w && Pow2(k) * w < 1000 * SIG
    ensures k < 63
  {
    Pow2Constants();
    MulMono(1, w, Pow2(k));
    Pow2Mono(63, k);
  }

  lemma {:induction false} Pow2Mono(a: nat, b: nat)
    ensures a <= b ==> Pow2(a) <= Pow2(b)
    decreases b
  {
    if a >= b {
    } else {
      Pow2Mono(a, b - 1);
    }
  }

  /** No double lies strictly between two neighbours of a grid that w / 1000 fills to 53 bits. */
  lemma NoDoubleBetween(lo: nat, k: nat, m: int, s: nat)
    requires k <= UNIT_EXP && HALF_SIG <= lo && -SIG < m < SIG
    ensures var g := Pow2(UNIT_EXP - k);
            m * Pow2(s) <= lo * g || (lo + 1) * g <= m * Pow2(s)
  {
    var t := UNIT_EXP - k;
    var g := Pow2(t);
    if s >= t {
      Pow2Add(t, s - t);
      var j := m * Pow2(s - t);
      assert m * Pow2(s) == j * g by {
        Regroup(m, Pow2(s - t), g);
      }
      if j <= lo {
        MulMono(j, lo, g);
      } else {
        MulMono(lo + 1, j, g);
      }
    } else {
      Pow2Add(s, t - s);
      var p := Pow2(s);
      assert Pow2(t - s) == 2 * Pow2(t - s - 1);
      Regroup(p, 2, Pow2(t - s - 1));
      MulMono(2 * p, g, HALF_SIG) by {
        MulMono(1, Pow2(t - s - 1), 2 * p);
      }
      MulMono(m, SIG, p);
      MulMono(HALF_SIG, lo, g);
    }
  }

  lemma Regroup(a: int, b: int, c: int)
    ensures a * (c * b) == (a * b) * c && a * (b * c) == (a * b) * c && a * (b * c) == (b * a) * c
  {
  }

  lemma MulMono(a: int, b: int, c: int)
    requires a <= b && c >= 0
    ensures a * c <= b * c
  {
  }

  /** Rounding to nearest, ties to even, lands on a nearest double of the exact quotient. */
  lemma DivisionIsNearest(w: nat)
    requires w < 1000 * SIG
    ensures DivideBy1000(w).exp <= 63
    ensures NearestDouble(w, DivideBy1000(w).InUnits())
  {
    var d := DivideBy1000(w);
    if w == 0 {
      assert IsDoubleWith(0, 0, 0);
    } else {
      var k := Shift(w, 0);
      ShiftIsSmall(w, k);
      var n := Pow2(k) * w;
      assert HALF_SIG <= n / 1000 < SIG;
      RoundedIsDouble(d.num, k);
      forall y | IsDouble(y)
        ensures Error(w, d.InUnits()) <= Error(w, y)
      {
        NoDoubleIsNearer(w, k, n, d.num, y);
      }
    }
  }

  lemma {:induction false} NoDoubleIsNearer(w: nat, k: nat, n: nat, num: nat, y: int)
    requires k <= UNIT_EXP && n == Pow2(k) * w && HALF_SIG <= n / 1000 && IsDouble(y)
    requires var lo, rem := n / 1000, n % 1000;
             (num == lo && rem <= 500) || (num == lo + 1 && rem >= 500)
    ensures Error(w, num * Pow2(UNIT_EXP - k)) <= Error(w, y)
  {
    var g := Pow2(UNIT_EXP - k);
    var m, s :| IsDoubleWith(y, m, s);
    NoDoubleBetween(n / 1000, k, m, s);
    NearerGridPoint(n, g, num, y);
    QuotientInUnits(w, k);
  }

  lemma QuotientInUnits(w: nat, k: nat)
    requires k <= UNIT_EXP
    ensures w * Pow2(UNIT_EXP) == (Pow2(k) * w) * Pow2(UNIT_EXP - k)
  {
    var p, g, u := Pow2(k), Pow2(UNIT_EXP - k), Pow2(UNIT_EXP);
    assert u == p * g by {
      Pow2Add(k, UNIT_EXP - k);
    }
    Regroup(w, p, g);
  }

  lemma RoundedIsDouble(num: nat, k: nat)
    requires k <= 63 && num <= SIG
    ensures IsDouble(num * Pow2(UNIT_EXP - k))
  {
    var t := UNIT_EXP - k;
    if num < SIG {
      assert IsDoubleWith(num * Pow2(t), num, t);
    } else {
      assert Pow2(t + 1) == 2 * Pow2(t);
      assert IsDoubleWith(num * Pow2(t), HALF_SIG, t + 1);
    }
  }

  lemma NearerGridPoint(n: nat, g: nat, num: nat, y: int)
    requires var lo, rem := n / 1000, n % 1000;
             && ((num == lo && rem <= 500) || (num == lo + 1 && rem >= 500))
             && (y <= lo * g || (lo + 1) * g <= y)
    ensures Abs(1000 * (num * g) - n * g) <= Abs(1000 * y - n * g)
  {
    var lo, rem := n / 1000, n % 1000;
    Distribute(lo, rem, g);
    MulMono(0, rem, g);
    MulMono(rem, 1000, g);
    if num == lo {
      MulMono(rem, 500, g);
    } else {
      MulMono(500, rem, g);
    }
    NearerOfTwo(lo * g, rem * g, g, num * g, y);
  }

  lemma Distribute(lo: int, rem: int, g: int)
    ensures (1000 * lo + rem) * g == 1000 * (lo * g) + rem * g && (lo + 1) * g == lo * g + g
  {
  }

  lemma NearerOfTwo(below: int, gap: int, g: int, x: int, y: int)
    requires 0 <= gap <= 1000 * g && (y <= below || below + g <= y)
    requires (x == below && gap <= 500 * g) || (x == below + g && gap >= 500 * g)
    ensures Abs(1000 * x - (1000 * below + gap)) <= Abs(1000 * y - (1000 * below + gap))
  {
  }

  ghost function Abs(x: int): nat { if x >= 0 then x else -x }

  // ---- Any nearest double has the integer ceiling of the exact quotient ----

  /** Rounding the quotient to a nearest double never moves it across an integer. */
  lemma NearestKeepsCeiling(w: nat, x: int)
    requires w < 0x4_0000_0000 && NearestDouble(w, x)
    ensures var c := CeilDiv(w, 1000);
            (c - 1) * Pow2(UNIT_EXP) < x <= c * Pow2(UNIT_EXP)
  {
    var c, u, v := CeilDiv(w, 1000), Pow2(UNIT_EXP), Pow2(UNIT_EXP - 28);
    var lo := 0x1000_0000 * w / 1000;
    Units(v);
    NearerThan(w, x, c, UNIT_EXP, u);
    NearerThan(w, x, lo, UNIT_EXP - 28, u);
    CloseDouble(w, u, v);
    NotAcross(w, c, u, x);
  }

  lemma Units(v: nat)
    requires v == Pow2(UNIT_EXP - 28)
    ensures Pow2(UNIT_EXP) == 0x1000_0000 * v
  {
    Pow2Constants();
    Pow2Add(28, UNIT_EXP - 28);
  }

  /** A nearest double is at least as near as any double `m * 2^s` units. */
  lemma NearerThan(w: nat, x: int, m: int, s: nat, u: nat)
    requires NearestDouble(w, x) && -SIG < m < SIG && s <= 2045 && u == Pow2(UNIT_EXP)
    ensures Abs(1000 * x - w * u) <= Abs(1000 * (m * Pow2(s)) - w * u)
  {
    assert IsDoubleWith(m * Pow2(s), m, s);
    assert Error(w, x) <= Error(w, m * Pow2(s));
  }

  /** Cutting the quotient after 28 binary places is off by less than 1000 units of 2^-28. */
  lemma CloseDouble(w: nat, u: nat, v: nat)
    requires u == 0x1000_0000 * v && v > 0
    ensures Abs(1000 * ((0x1000_0000 * w / 1000) * v) - w * u) < u
  {
    var n := 0x1000_0000 * w;
    var lo, rem := n / 1000, n % 1000;
    assert n * v == (1000 * lo + rem) * v;
    assert w * u == n * v;
    assert n * v == 1000 * (lo * v) + rem * v;
    MulMono(rem, 999, v);
    MulMono(0, rem, v);
  }

  lemma NotAcross(w: nat, c: nat, u: nat, x: int)
    requires 1000 * (c - 1) < w <= 1000 * c && u > 0
    requires Abs(1000 * x - w * u) <= Abs(1000 * (c * u) - w * u)
    requires Abs(1000 * x - w * u) < u
    ensures (c - 1) * u < x <= c * u
  {
    MulMono(w, 1000 * c, u);
    MulMono(1000 * (c - 1) + 1, w, u);
    assert (1000 * c) * u == 1000 * (c * u);
    assert (1000 * (c - 1) + 1) * u == 1000 * ((c - 1) * u) + u;
  }

  lemma CeilInUnits(d: Dyadic, c: int)
    requires d.exp <= UNIT_EXP
    requires (c - 1) * Pow2(UNIT_EXP) < d.InUnits() <= c * Pow2(UNIT_EXP)
    ensures Ceil(d) == c
  {
    Pow2Add(d.exp, UNIT_EXP - d.exp);
    CancelFactor(d.num, Pow2(d.exp), Pow2(UNIT_EXP - d.exp), c);
    CeilUnique(d.num, Pow2(d.exp), c);
  }

  lemma CancelFactor(num: int, p: nat, g: nat, c: int)
    requires (c - 1) * (p * g) < num * g <= c * (p * g)
    ensures (c - 1) * p < num <= c * p
  {
    Regroup(c, p, g);
    Regroup(c - 1, p, g);
    if num > c * p {
      MulMono(c * p + 1, num, g);
    }
    if num <= (c - 1) * p {
      MulMono(num, (c - 1) * p, g);
    }
  }

  lemma CeilUnique(num: nat, p: nat, c: int)
    requires p > 0 && (c - 1) * p < num <= c * p
    ensures CeilDiv(num, p) == c
  {
    var r := CeilDiv(num, p);
    if r < c {
      MulMono(r, c - 1, p);
    }
    if r > c {
      MulMono(c, r - 1, p);
    }
  }

  /**
   The floating-point charge is exact for every pair of 32-bit token counts: it is the
   integer ceiling of prompt + 3 * completion over 1000, at least 1, and fits `i32`.
   */
  lemma ChargeIsExact(prompt: Tokens, completion: Tokens)
    ensures var exact := CeilDiv(prompt + 3 * completion, 1000);
            CreditsForTokens(prompt, completion) == if exact > 1 then exact else 1
    ensures 1 <= CreditsForTokens(prompt, completion) <= MAX_CHARGE
  {
    var w := prompt + 3 * completion;
    DivisionIsNearest(w);
    NearestKeepsCeiling(w, DivideBy1000(w).InUnits());
    CeilInUnits(DivideBy1000(w), CeilDiv(w, 1000));
  }

  /** More tokens never cost less. */
  lemma ChargeIsMonotone(p: Tokens, c: Tokens, p': Tokens, c': Tokens)
    requires p <= p' && c <= c'
    ensures CreditsForTokens(p, c) <= CreditsForTokens(p', c')
  {
    ChargeIsExact(p, c);
    ChargeIsExact(p', c');
  }

  /** Splitting a reply in two never costs less than the whole. */
  lemma SplittingNeverCostsLess(p: Tokens, c: Tokens, p': Tokens, c': Tokens)
    requires p + p' <= U32_MAX && c + c' <= U32_MAX
    ensures CreditsForTokens(p + p', c + c') <= CreditsForTokens(p, c) + CreditsForTokens(p', c')
  {
    ChargeCovers(p, c);
    ChargeCovers(p', c');
    ChargeCovers(p + p', c + c');
  }

  /** A charge covers its tokens, and one credit less would not. */
  lemma ChargeCovers(p: Tokens, c: Tokens)
    ensures var n := CreditsForTokens(p, c);
            n >= 1 && p + 3 * c <= 1000 * n && (n > 1 ==> 1000 * (n - 1) < p + 3 * c)
  {
    ChargeIsExact(p, c);
  }

  /** The bound is reached: the largest charge is charged. */
  lemma LargestCharge()
    ensures CreditsForTokens(U32_MAX, U32_MAX) == MAX_CHARGE
  {
    ChargeIsExact(U32_MAX, U32_MAX);
  }
}
