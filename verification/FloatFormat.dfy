/**
 The hand-written IEEE 754 encoder and decoder of the ZNP codec, generic in mantissa
 and exponent width. Values are exact reals; the sign bit of zero is kept.
 */
module FloatFormat {
  import opened Bytes

  type Magnitude = r: real | r >= 0.0

  /** A floating-point value; the sign of zero is kept, NaN payloads are not. */
  datatype Float = NaN | Infinity(negative: bool) | Finite(negative: bool, magnitude: Magnitude)

  datatype Format = Format(man: nat, exp: nat) {
    predicate Valid() {
      man >= 1 && exp >= 2
    }

    function Bias(): int
      requires Valid()
    {
      Pow2(exp - 1) - 1
    }

    /** Bytes of the backing unsigned integer (the three formats in use fill it exactly). */
    function Width(): nat {
      (1 + man + exp) / 8
    }
  }

  const SEMI := Format(10, 5)
  const SINGLE := Format(23, 8)
  const DOUBLE := Format(52, 11)

  /** 2^e for any integer e. */
  function Exp2(e: int): (p: real)
    ensures p > 0.0
    decreases if e < 0 then -e else e
  {
    if e == 0 then 1.0 else if e > 0 then 2.0 * Exp2(e - 1) else Exp2(e + 1) / 2.0
  }

  lemma Exp2Next(e: int)
    ensures Exp2(e + 1) == 2.0 * Exp2(e)
  {
  }

  lemma {:induction false} Exp2Monotone(a: int, b: int)
    requires a <= b
    ensures Exp2(a) <= Exp2(b)
    ensures a < b ==> 2.0 * Exp2(a) <= Exp2(b)
    decreases b - a
  {
    if a < b {
      Exp2Monotone(a, b - 1);
      Exp2Next(b - 1);
    }
  }

  /** floor(log2(x)) for positive x. */
  function FloorLog2(x: real): (e: int)
    requires x > 0.0
    ensures Exp2(e) <= x < Exp2(e + 1)
    decreases if x >= 1.0 then x.Floor - 1 else (1.0 / x).Floor
  {
    if x >= 2.0 then
      var e := FloorLog2(x / 2.0) + 1;
      Exp2Next(e);
      e
    else if x < 1.0 then
      HalvesReciprocal(x);
      var e := FloorLog2(2.0 * x) - 1;
      Exp2Next(e); Exp2Next(e + 1);
      e
    else
      0
  }

  lemma HalvesReciprocal(x: real)
    requires 0.0 < x < 1.0
    ensures 1.0 / (2.0 * x) == 1.0 / x / 2.0
    ensures 1.0 / x > 1.0
  {
    var r := 1.0 / x;
    assert r * x == 1.0;
    assert (r / 2.0) * (2.0 * x) == 1.0;
  }

  lemma FloorLog2Unique(x: real, e: int)
    requires x > 0.0 && Exp2(e) <= x < Exp2(e + 1)
    ensures FloorLog2(x) == e
  {
    var f := FloorLog2(x);
    if f < e {
      Exp2Monotone(f + 1, e);
    } else if e < f {
      Exp2Monotone(e + 1, f);
    }
  }

  /** std::round on a non-negative value: halves go up. */
  function Round(x: real): int {
    (x + 0.5).Floor
  }

  function MantissaCount(f: Format): (m: nat)
    ensures m >= 1
  {
    Pow2(f.man)
  }

  /** The exponent field reserved for infinities and NaN. */
  function Reserved(f: Format): int {
    Pow2(f.exp) - 1
  }

  /** Fields packed below the sign bit: exponent in the high bits, mantissa in the low ones. */
  function Pack(f: Format, negative: bool, exponent: int, mantissa: int): int {
    (if negative then Pow2(f.man + f.exp) else 0) + exponent * MantissaCount(f) + mantissa
  }

  /** 2^man * (c / 2^e - 1): the mantissa of c in the binade 2^e before rounding. */
  function ScaledFraction(f: Format, c: real, e: int): real {
    (c / Exp2(e) - 1.0) * MantissaCount(f) as real
  }

  /** 2^man * c / 2^(1 - bias): c counted in steps of the smallest subnormal. */
  function ScaledSubnormal(f: Format, c: real): real
    requires f.Valid()
  {
    c / Exp2(1 - f.Bias()) * MantissaCount(f) as real
  }

  /** Exponent and mantissa fields, packed, of the positive real c. */
  function EncodeMagnitude(f: Format, c: real): int
    requires f.Valid() && c > 0.0
  {
    var e := FloorLog2(c);
    var biased := e + f.Bias();
    if biased >= Pow2(f.exp) then
      (Reserved(f) - 1) * MantissaCount(f) + (MantissaCount(f) - 1)
    else if biased <= 0 then
      Round(ScaledSubnormal(f, c))
    else
      var m := Round(ScaledFraction(f, c, e));
      biased * MantissaCount(f) + (if m >= MantissaCount(f) then MantissaCount(f) - 1 else m)
  }

  function Encode(f: Format, v: Float): (raw: int)
    requires f.Valid()
  {
    match v
    case NaN => Pack(f, false, Reserved(f), 1)
    case Infinity(negative) => Pack(f, negative, Reserved(f), 0)
    case Finite(negative, c) =>
      if c == 0.0 then Pack(f, negative, 0, 0)
      else (if negative then Pow2(f.man + f.exp) else 0) + EncodeMagnitude(f, c)
  }

  /** The value of a packed exponent and mantissa below the reserved exponent. */
  function DecodeMagnitude(f: Format, packed: nat): (c: Magnitude)
    requires f.Valid()
    ensures packed > 0 ==> c > 0.0
  {
    var m := MantissaCount(f);
    if packed / m == 0 then
      (packed % m) as real / m as real * Exp2(1 - f.Bias())
    else
      (m + packed % m) as real / m as real * Exp2(packed / m - f.Bias())
  }

  function Decode(f: Format, raw: nat): Float
    requires f.Valid()
  {
    var negative := raw / Pow2(f.man + f.exp) != 0;
    var packed := raw % Pow2(f.man + f.exp);
    if packed / MantissaCount(f) == Reserved(f) then
      if packed % MantissaCount(f) != 0 then NaN else Infinity(negative)
    else
      Finite(negative, DecodeMagnitude(f, packed))
  }

  lemma Quotient(k: int, m: nat, p: real)
    requires m >= 1 && p > 0.0
    ensures (k as real / m as real * p) / p == k as real / m as real
    ensures k as real / m as real * m as real == k as real
  {
  }

  lemma RoundOfInt(k: nat)
    ensures Round(k as real) == k
  {
  }

  /** Every packed field below infinity is reproduced exactly, subnormals included. */
  lemma PackedRoundTrip(f: Format, packed: nat)
    requires f.Valid() && 0 < packed && packed / MantissaCount(f) < Reserved(f)
    ensures EncodeMagnitude(f, DecodeMagnitude(f, packed)) == packed
  {
    if packed / MantissaCount(f) == 0 {
      SubnormalRoundTrip(f, packed);
    } else {
      NormalRoundTrip(f, packed);
    }
  }

  lemma SubnormalRoundTrip(f: Format, packed: nat)
    requires f.Valid() && 0 < packed && packed / MantissaCount(f) == 0
    ensures EncodeMagnitude(f, DecodeMagnitude(f, packed)) == packed
  {
    hide Exp2, Pow2, FloorLog2;
    var m, e := MantissaCount(f), 1 - f.Bias();
    var c, p := DecodeMagnitude(f, packed), Exp2(e);
    assert packed % m == packed < m by { ModIs(packed, m, 0, packed % m); }
    assert c == packed as real / m as real * p;
    assert FloorLog2(c) < e by {
      FractionBelow(packed, m, p, c);
      BelowExp2(c, e);
    }
    assert Round(ScaledSubnormal(f, c)) == packed by {
      Quotient(packed, m, p);
      RoundOfInt(packed);
    }
  }

  lemma FractionBelow(k: nat, m: nat, p: real, c: real)
    requires k < m && p > 0.0 && c == k as real / m as real * p
    ensures c < p
  {
    var q := k as real / m as real;
    assert q < 1.0;
  }

  lemma BelowExp2(c: real, e: int)
    requires 0.0 < c < Exp2(e)
    ensures FloorLog2(c) < e
  {
    if e <= FloorLog2(c) {
      Exp2Monotone(e, FloorLog2(c));
    }
  }

  lemma NormalRoundTrip(f: Format, packed: nat)
    requires f.Valid() && 0 < packed / MantissaCount(f) < Reserved(f)
    ensures EncodeMagnitude(f, DecodeMagnitude(f, packed)) == packed
  {
    hide Exp2, Pow2, FloorLog2;
    var m, x, r := MantissaCount(f), packed / MantissaCount(f), packed % MantissaCount(f);
    var e := x - f.Bias();
    var c := DecodeMagnitude(f, packed);
    var p := Exp2(e);
    assert c == (m + r) as real / m as real * p;
    assert FloorLog2(c) == e by {
      NormalBinade(r, m, p, c);
      Exp2Next(e);
      FloorLog2Unique(c, e);
    }
    assert c / p == (m + r) as real / m as real by { Quotient(m + r, m, p); }
    assert Round(ScaledFraction(f, c, e)) == r by {
      ScaledIs(m, r);
      RoundOfInt(r);
    }
    assert packed == x * m + r;
  }

  lemma NormalBinade(r: nat, m: nat, p: real, c: real)
    requires r < m && p > 0.0 && c == (m + r) as real / m as real * p
    ensures p <= c < 2.0 * p
  {
    QuotientBetween(r, m);
    ScaleBetween((m + r) as real / m as real, p);
  }

  lemma QuotientBetween(r: nat, m: nat)
    requires r < m
    ensures 1.0 <= (m + r) as real / m as real < 2.0
  {
    ScaleStrict((m + r) as real / m as real, 1.0, m as real);
    ScaleStrict(2.0, (m + r) as real / m as real, m as real);
  }

  lemma ScaleStrict(a: real, b: real, p: real)
    requires p > 0.0
    ensures a < b ==> a * p < b * p
    ensures a <= b ==> a * p <= b * p
  {
    if a < b {
      assert (b - a) * p > 0.0;
    }
  }

  lemma ScaleBetween(q: real, p: real)
    requires 1.0 <= q < 2.0 && p > 0.0
    ensures p <= q * p < 2.0 * p
  {
  }

  lemma ScaledIs(m: nat, r: nat)
    requires m >= 1
    ensures ((m + r) as real / m as real - 1.0) * m as real == r as real
  {
    assert (m + r) as real / m as real * m as real == (m + r) as real;
  }

  predicate IsNaNPattern(f: Format, raw: nat)
    requires f.Valid()
  {
    Decode(f, raw).NaN?
  }

  /** Encoding a decoded pattern gives the pattern back, for every pattern that is not a NaN. */
  lemma EncodeOfDecode(f: Format, raw: nat)
    requires f.Valid() && raw < 2 * Pow2(f.man + f.exp)
    ensures IsNaNPattern(f, raw) || Encode(f, Decode(f, raw)) == raw
  {
    hide Exp2, Pow2, FloorLog2;
    var s := Pow2(f.man + f.exp);
    var packed := raw % s;
    SignBit(raw, s);
    ExponentFits(f, packed);
    var m := MantissaCount(f);
    assert packed == packed / m * m + packed % m;
    if packed / m < Reserved(f) && packed > 0 {
      PackedRoundTrip(f, packed);
    } else if packed == 0 {
      ModIs(packed, m, 0, 0);
    }
  }

  lemma SignBit(raw: nat, s: nat)
    requires s >= 1 && raw < 2 * s
    ensures raw == (if raw / s != 0 then s else 0) + raw % s
  {
    var q := raw / s;
    assert raw == s * q + raw % s;
    MulMonotone(s, 2, q);
  }

  lemma ExponentFits(f: Format, packed: nat)
    requires packed < Pow2(f.man + f.exp)
    ensures packed / MantissaCount(f) <= Reserved(f)
  {
    Pow2Add(f.man, f.exp);
    QuotientBelow(packed, MantissaCount(f), Pow2(f.exp));
  }

  lemma QuotientBelow(v: nat, m: nat, n: nat)
    requires m >= 1 && v < m * n
    ensures v / m < n
  {
    assert v == m * (v / m) + v % m;
    MulMonotone(m, n, v / m);
  }

  // ----- Rounding: error bound and monotonicity -----

  predicate Subnormal(f: Format, c: real)
    requires f.Valid() && c > 0.0
  {
    FloorLog2(c) + f.Bias() <= 0
  }

  /** The distance between neighbouring encodable values around c. */
  function Ulp(f: Format, c: real): (u: real)
    requires f.Valid() && c > 0.0
    ensures u > 0.0
  {
    Exp2(UlpBinade(f, c)) / MantissaCount(f) as real
  }

  function UlpBinade(f: Format, c: real): int
    requires f.Valid() && c > 0.0
  {
    if Subnormal(f, c) then 1 - f.Bias() else FloorLog2(c)
  }

  /** The top half-ulp of a binade, where the mantissa is held below the next binade. */
  predicate Clamped(f: Format, c: real)
    requires f.Valid() && c > 0.0
  {
    !Subnormal(f, c) && ScaledFraction(f, c, FloorLog2(c)) > MantissaCount(f) as real - 0.5
  }

  function Rounded(f: Format, c: real): Magnitude
    requires f.Valid() && 0.0 < c < Exp2(f.Bias() + 1)
  {
    PackedIsNat(f, c);
    DecodeMagnitude(f, EncodeMagnitude(f, c))
  }

  function Abs(x: real): real {
    if x < 0.0 then -x else x
  }

  lemma BiasOf(f: Format)
    requires f.Valid()
    ensures 2 * f.Bias() == Reserved(f) - 1 && f.Bias() >= 1
  {
    assert Pow2(f.exp) == 2 * Pow2(f.exp - 1);
    assert Pow2(f.exp - 1) == 2 * Pow2(f.exp - 2);
  }

  lemma InBinade(c: real, e: int)
    requires c > 0.0 && e == FloorLog2(c)
    ensures 1.0 <= c / Exp2(e) < 2.0
  {
    hide Exp2;
    var p := Exp2(e);
    Exp2Next(e);
    assert p <= c < 2.0 * p;
    QuotientCompare(c, p, 1.0);
    QuotientCompare(c, p, 2.0);
  }

  /** Comparing a quotient with k is comparing the dividend with k times the divisor. */
  lemma QuotientCompare(x: real, p: real, k: real)
    requires p > 0.0
    ensures x < k * p ==> x / p < k
    ensures k * p <= x ==> k <= x / p
  {
    var q := x / p;
    assert q * p == x;
    if k <= q {
      ScaleStrict(k, q, p);
    } else {
      ScaleStrict(q, k, p);
    }
  }

  lemma ProductBetween(q: real, p: real, product: real)
    requires 0.0 <= q < 1.0 && p > 0.0 && product == q * p
    ensures 0.0 <= product < p
  {
  }

  /** The scaled fraction lies in [0, 2^man): the encoder's mantissa failure cannot happen. */
  lemma FractionInRange(f: Format, c: real)
    requires c > 0.0
    ensures 0.0 <= c / Exp2(FloorLog2(c)) - 1.0 < 1.0
    ensures 0.0 <= ScaledFraction(f, c, FloorLog2(c)) < MantissaCount(f) as real
  {
    hide Exp2, Pow2, FloorLog2;
    InBinade(c, FloorLog2(c));
    ProductBetween(c / Exp2(FloorLog2(c)) - 1.0, MantissaCount(f) as real, ScaledFraction(f, c, FloorLog2(c)));
  }

  lemma RoundNear(x: real)
    requires x >= 0.0
    ensures Round(x) >= 0
    ensures -0.5 <= x - Round(x) as real < 0.5
  {
  }

  /** What is encoded for c in the normal range: its binade and a clamped mantissa. */
  function NormalMantissa(f: Format, c: real): (m: nat)
    requires c > 0.0
    ensures m < MantissaCount(f)
    ensures Abs(m as real - ScaledFraction(f, c, FloorLog2(c))) < 1.0
    ensures Abs(m as real - ScaledFraction(f, c, FloorLog2(c))) <= 0.5
            <==> ScaledFraction(f, c, FloorLog2(c)) <= MantissaCount(f) as real - 0.5
  {
    FractionInRange(f, c);
    var m := Round(ScaledFraction(f, c, FloorLog2(c)));
    RoundNear(ScaledFraction(f, c, FloorLog2(c)));
    if m >= MantissaCount(f) then MantissaCount(f) - 1 else m
  }

  lemma NormalFields(f: Format, c: real)
    requires f.Valid() && 0.0 < c < Exp2(f.Bias() + 1) && !Subnormal(f, c)
    ensures var biased := FloorLog2(c) + f.Bias();
      1 <= biased < Reserved(f)
      && EncodeMagnitude(f, c) == biased * MantissaCount(f) + NormalMantissa(f, c)
  {
    BiasOf(f);
    BelowExp2(c, f.Bias() + 1);
  }

  lemma SubnormalFields(f: Format, c: real)
    requires f.Valid() && c > 0.0 && Subnormal(f, c)
    ensures 0.0 <= ScaledSubnormal(f, c) < MantissaCount(f) as real
      && EncodeMagnitude(f, c) == Round(ScaledSubnormal(f, c))
      && 0 <= EncodeMagnitude(f, c) <= MantissaCount(f)
  {
    hide Exp2, Pow2, FloorLog2;
    var p, m := Exp2(1 - f.Bias()), MantissaCount(f) as real;
    assert c < p by { Exp2Monotone(FloorLog2(c) + 1, 1 - f.Bias()); }
    QuotientCompare(c, p, 1.0);
    QuotientCompare(c, p, 0.0);
    ProductBetween(c / p, m, ScaledSubnormal(f, c));
    RoundNear(ScaledSubnormal(f, c));
  }

  lemma PackedIsNat(f: Format, c: real)
    requires f.Valid() && 0.0 < c < Exp2(f.Bias() + 1)
    ensures EncodeMagnitude(f, c) >= 0
    ensures EncodeMagnitude(f, c) / MantissaCount(f) < Reserved(f)
  {
    hide Exp2, Pow2, FloorLog2;
    var m := MantissaCount(f);
    BiasOf(f);
    if Subnormal(f, c) {
      SubnormalFields(f, c);
      QuotientBelow(EncodeMagnitude(f, c), m, 2);
    } else {
      NormalFields(f, c);
      var biased := FloorLog2(c) + f.Bias();
      MulMonotone(m, 0, biased);
      ModIs(EncodeMagnitude(f, c), m, biased, NormalMantissa(f, c));
    }
  }

  /** A packed value below the reserved exponent, as a multiple of its binade's step. */
  lemma RoundedNormal(f: Format, c: real)
    requires f.Valid() && 0.0 < c < Exp2(f.Bias() + 1) && !Subnormal(f, c)
    ensures Rounded(f, c)
            == (MantissaCount(f) + NormalMantissa(f, c)) as real / MantissaCount(f) as real * Exp2(FloorLog2(c))
  {
    hide Exp2, Pow2, FloorLog2;
    NormalFields(f, c);
    PackedIsNat(f, c);
    ModIs(EncodeMagnitude(f, c), MantissaCount(f), FloorLog2(c) + f.Bias(), NormalMantissa(f, c));
  }

  lemma RoundedSubnormal(f: Format, c: real)
    requires f.Valid() && 0.0 < c < Exp2(f.Bias() + 1) && Subnormal(f, c)
    ensures Rounded(f, c)
            == Round(ScaledSubnormal(f, c)) as real / MantissaCount(f) as real * Exp2(1 - f.Bias())
  {
    hide Exp2, Pow2, FloorLog2;
    SubnormalFields(f, c);
    PackedIsNat(f, c);
    var m, packed := MantissaCount(f), EncodeMagnitude(f, c);
    if packed == m {
      ModIs(packed, m, 1, 0);
    } else {
      ModIs(packed, m, 0, packed);
    }
  }

  /** k steps and x steps of size p/m differ by |k - x| of them. */
  lemma StepDistance(k: int, m: real, p: real, x: real, c: real)
    requires m > 0.0 && p > 0.0 && x == c / p * m
    ensures Abs(k as real / m * p - c) == Abs(k as real - x) * (p / m)
  {
    assert c == x * (p / m) by {
      assert c / p * p == c;
      assert x * (p / m) == c / p * m * p / m;
    }
    assert k as real / m * p == k as real * (p / m);
    ScaleAbs(k as real - x, p / m);
  }

  lemma ScaleAbs(d: real, u: real)
    requires u >= 0.0
    ensures Abs(d * u) == Abs(d) * u
  {
  }

  /** c and its encoding, both counted in units in the last place. */
  function Units(f: Format, c: real): real
    requires f.Valid() && c > 0.0
  {
    if Subnormal(f, c) then ScaledSubnormal(f, c)
    else ScaledFraction(f, c, FloorLog2(c)) + MantissaCount(f) as real
  }

  function RoundedUnits(f: Format, c: real): int
    requires f.Valid() && c > 0.0
  {
    if Subnormal(f, c) then Round(ScaledSubnormal(f, c))
    else MantissaCount(f) + NormalMantissa(f, c)
  }

  lemma UnitsAre(f: Format, c: real)
    requires f.Valid() && 0.0 < c < Exp2(f.Bias() + 1)
    ensures Units(f, c) == c / Exp2(UlpBinade(f, c)) * MantissaCount(f) as real
    ensures Rounded(f, c) == RoundedUnits(f, c) as real / MantissaCount(f) as real * Exp2(UlpBinade(f, c))
  {
    hide Exp2, Pow2, FloorLog2, EncodeMagnitude, DecodeMagnitude;
    if Subnormal(f, c) {
      RoundedSubnormal(f, c);
    } else {
      RoundedNormal(f, c);
      FullFraction(f, c, FloorLog2(c));
    }
  }

  lemma ErrorInUnits(f: Format, c: real)
    requires f.Valid() && 0.0 < c < Exp2(f.Bias() + 1)
    ensures Abs(Rounded(f, c) - c) == Abs(RoundedUnits(f, c) as real - Units(f, c)) * Ulp(f, c)
  {
    hide Exp2, Pow2, FloorLog2, Rounded, RoundedUnits, Units, UlpBinade;
    UnitsAre(f, c);
    StepDistance(RoundedUnits(f, c), MantissaCount(f) as real, Exp2(UlpBinade(f, c)), Units(f, c), c);
  }

  lemma ErrorOfUnits(f: Format, c: real)
    requires f.Valid() && c > 0.0
    ensures Abs(RoundedUnits(f, c) as real - Units(f, c)) < 1.0
    ensures Abs(RoundedUnits(f, c) as real - Units(f, c)) <= 0.5 <==> !Clamped(f, c)
  {
    hide Exp2, Pow2, FloorLog2;
    if Subnormal(f, c) {
      SubnormalFields(f, c);
      RoundNear(ScaledSubnormal(f, c));
    }
  }

  /** Rounding is off by less than one unit in the last place, and by more than half a
      unit exactly when the mantissa was clamped. */
  lemma RoundingError(f: Format, c: real)
    requires f.Valid() && 0.0 < c < Exp2(f.Bias() + 1)
    ensures Abs(Rounded(f, c) - c) < Ulp(f, c)
    ensures Abs(Rounded(f, c) - c) <= Ulp(f, c) / 2.0 <==> !Clamped(f, c)
  {
    hide *;
    ErrorInUnits(f, c);
    ErrorOfUnits(f, c);
    StepsBelow(Abs(RoundedUnits(f, c) as real - Units(f, c)), Ulp(f, c), Abs(Rounded(f, c) - c));
  }

  lemma FullFraction(f: Format, c: real, e: int)
    ensures ScaledFraction(f, c, e) + MantissaCount(f) as real == c / Exp2(e) * MantissaCount(f) as real
  {
  }

  lemma StepsCompare(k: real, b: real, u: real, error: real)
    requires u > 0.0 && error == k * u
    ensures k < b ==> error < b * u
    ensures k <= b ==> error <= b * u
    ensures k > b ==> error > b * u
  {
    ScaleStrict(k, b, u);
    ScaleStrict(b, k, u);
  }

  lemma StepsBelow(k: real, u: real, error: real)
    requires u > 0.0 && error == k * u
    ensures k < 1.0 ==> error < u
    ensures k <= 0.5 <==> error <= u / 2.0
  {
    StepsCompare(k, 1.0, u, error);
    StepsCompare(k, 0.5, u, error);
  }

  // ----- Monotonicity -----

  lemma DivideMonotone(x: real, y: real, p: real)
    requires p > 0.0 && x <= y
    ensures x / p <= y / p
  {
    var d := (y - x) / p;
    assert d * p == y - x;
    assert d >= 0.0;
    assert y / p == x / p + d;
  }

  lemma ScaledMonotone(f: Format, x: real, y: real, e: int)
    requires f.Valid() && x <= y
    ensures ScaledFraction(f, x, e) <= ScaledFraction(f, y, e)
    ensures ScaledSubnormal(f, x) <= ScaledSubnormal(f, y)
  {
    hide Exp2, Pow2;
    DivideMonotone(x, y, Exp2(e));
    DivideMonotone(x, y, Exp2(1 - f.Bias()));
    ScaleStrict(x / Exp2(e) - 1.0, y / Exp2(e) - 1.0, MantissaCount(f) as real);
    ScaleStrict(x / Exp2(1 - f.Bias()), y / Exp2(1 - f.Bias()), MantissaCount(f) as real);
  }

  lemma FloorLog2Monotone(x: real, y: real)
    requires 0.0 < x <= y
    ensures FloorLog2(x) <= FloorLog2(y)
  {
    BelowExp2(x, FloorLog2(y) + 1);
  }

  lemma SubnormalsMonotone(f: Format, x: real, y: real)
    requires f.Valid() && 0.0 < x <= y && Subnormal(f, x) && Subnormal(f, y)
    ensures EncodeMagnitude(f, x) <= EncodeMagnitude(f, y)
  {
    hide Exp2, Pow2, FloorLog2, EncodeMagnitude, ScaledSubnormal;
    SubnormalFields(f, x);
    SubnormalFields(f, y);
    ScaledMonotone(f, x, y, 0);
  }

  lemma BinadeMonotone(f: Format, x: real, y: real)
    requires f.Valid() && 0.0 < x <= y < Exp2(f.Bias() + 1)
    requires !Subnormal(f, x) && FloorLog2(x) == FloorLog2(y)
    ensures EncodeMagnitude(f, x) <= EncodeMagnitude(f, y)
  {
    hide Exp2, Pow2, FloorLog2, EncodeMagnitude, ScaledFraction;
    NormalFields(f, x);
    NormalFields(f, y);
    ScaledMonotone(f, x, y, FloorLog2(x));
  }

  lemma AcrossBinades(f: Format, x: real, y: real)
    requires f.Valid() && 0.0 < x <= y < Exp2(f.Bias() + 1)
    requires !Subnormal(f, y) && FloorLog2(x) < FloorLog2(y)
    ensures EncodeMagnitude(f, x) <= EncodeMagnitude(f, y)
  {
    hide Exp2, Pow2, FloorLog2, EncodeMagnitude, NormalMantissa, MantissaCount, Format.Bias;
    NormalFields(f, y);
    var m, low, high := MantissaCount(f), FloorLog2(x) + f.Bias(), FloorLog2(y) + f.Bias();
    if Subnormal(f, x) {
      SubnormalFields(f, x);
      PackedOrder(m, 0, m, high, NormalMantissa(f, y));
    } else {
      NormalFields(f, x);
      PackedOrder(m, low, NormalMantissa(f, x), high, NormalMantissa(f, y));
    }
  }

  lemma PackedOrder(m: nat, a: int, r: nat, b: int, s: nat)
    requires r <= m && a < b
    ensures a * m + r <= b * m + s
  {
    MulMonotone(m, a + 1, b);
  }

  /** Larger magnitudes get larger packed fields. */
  lemma EncodeMonotone(f: Format, x: real, y: real)
    requires f.Valid() && 0.0 < x <= y < Exp2(f.Bias() + 1)
    ensures EncodeMagnitude(f, x) <= EncodeMagnitude(f, y)
  {
    hide Exp2, Pow2, FloorLog2, EncodeMagnitude;
    FloorLog2Monotone(x, y);
    if Subnormal(f, y) {
      SubnormalsMonotone(f, x, y);
    } else if FloorLog2(x) == FloorLog2(y) {
      BinadeMonotone(f, x, y);
    } else {
      AcrossBinades(f, x, y);
    }
  }

  lemma DecodeFields(f: Format, packed: nat, q: nat, r: nat)
    requires f.Valid() && r < MantissaCount(f) && packed == MantissaCount(f) * q + r
    ensures q == 0 ==> DecodeMagnitude(f, packed) == r as real / MantissaCount(f) as real * Exp2(1 - f.Bias())
    ensures q > 0 ==> DecodeMagnitude(f, packed)
                      == (MantissaCount(f) + r) as real / MantissaCount(f) as real * Exp2(q - f.Bias())
  {
    hide Exp2, Pow2;
    ModIs(packed, MantissaCount(f), q, r);
  }

  /** One step up in the packed fields never decreases the value. */
  lemma DecodeStep(f: Format, packed: nat)
    requires f.Valid()
    ensures DecodeMagnitude(f, packed) <= DecodeMagnitude(f, packed + 1)
  {
    hide Exp2, Pow2, DecodeMagnitude, MantissaCount, Format.Bias;
    var m, q, r := MantissaCount(f), packed / MantissaCount(f), packed % MantissaCount(f);
    assert packed == m * q + r;
    DecodeFields(f, packed, q, r);
    if r + 1 < m {
      DecodeFields(f, packed + 1, q, r + 1);
      StepUp(r, m, Exp2(1 - f.Bias()));
      StepUp(m + r, m, Exp2(q - f.Bias()));
    } else {
      CarryStep(f, packed, q);
    }
  }

  lemma CarryStep(f: Format, packed: nat, q: nat)
    requires f.Valid() && packed + 1 == MantissaCount(f) * q + MantissaCount(f)
    ensures DecodeMagnitude(f, packed) <= DecodeMagnitude(f, packed + 1)
  {
    hide Exp2, Pow2, DecodeMagnitude, MantissaCount, Format.Bias;
    var m, e := MantissaCount(f), q - f.Bias();
    DecodeFields(f, packed, q, m - 1);
    DecodeFields(f, packed + 1, q + 1, 0);
    if q == 0 {
      StepUp(m - 1, m, Exp2(1 - f.Bias()));
    } else {
      StepUp(m + m - 1, m, Exp2(e));
      Exp2Next(e);
      StepOver(m, Exp2(e));
      assert DecodeMagnitude(f, packed + 1) == m as real / m as real * Exp2(e + 1);
    }
  }

  lemma StepUp(k: nat, m: nat, p: real)
    requires m >= 1 && p > 0.0
    ensures k as real / m as real * p <= (k + 1) as real / m as real * p
  {
    DivideMonotone(k as real, (k + 1) as real, m as real);
    ScaleStrict(k as real / m as real, (k + 1) as real / m as real, p);
  }

  lemma StepOver(m: nat, p: real)
    requires m >= 1
    ensures (m + m) as real / m as real * p == m as real / m as real * (2.0 * p)
  {
    assert (m + m) as real / m as real == 2.0;
  }

  lemma {:induction false} DecodeMonotone(f: Format, a: nat, b: nat)
    requires f.Valid() && a <= b
    ensures DecodeMagnitude(f, a) <= DecodeMagnitude(f, b)
    decreases b - a
  {
    if a < b {
      DecodeMonotone(f, a, b - 1);
      DecodeStep(f, b - 1);
    }
  }

  lemma RoundedMonotone(f: Format, x: real, y: real)
    requires f.Valid() && 0.0 < x <= y < Exp2(f.Bias() + 1)
    ensures Rounded(f, x) <= Rounded(f, y)
  {
    hide Exp2, Pow2, FloorLog2;
    EncodeMonotone(f, x, y);
    PackedIsNat(f, x);
    PackedIsNat(f, y);
    DecodeMonotone(f, EncodeMagnitude(f, x), EncodeMagnitude(f, y));
  }

  // ----- Overflow -----

  lemma MaxFields(f: Format)
    requires f.Valid()
    ensures Reserved(f) >= 3
    ensures var packed := (Reserved(f) - 1) * MantissaCount(f) + (MantissaCount(f) - 1);
      packed >= 0 && packed / MantissaCount(f) == Reserved(f) - 1
  {
    BiasOf(f);
    var m := MantissaCount(f);
    MulMonotone(m, 0, Reserved(f) - 1);
    ModIs((Reserved(f) - 1) * m + (m - 1), m, Reserved(f) - 1, m - 1);
  }

  /** From 2^(bias + 2) up, the largest finite value of the format is encoded. */
  lemma OverflowIsLargest(f: Format, c: real, packed: nat)
    requires f.Valid() && c >= Exp2(f.Bias() + 2)
    requires packed / MantissaCount(f) < Reserved(f)
    ensures EncodeMagnitude(f, c) >= 0 && EncodeMagnitude(f, c) / MantissaCount(f) < Reserved(f)
    ensures DecodeMagnitude(f, packed) <= DecodeMagnitude(f, EncodeMagnitude(f, c))
  {
    hide Exp2, Pow2, FloorLog2, DecodeMagnitude;
    BiasOf(f);
    MaxFields(f);
    AtLeastExp2(c, f.Bias() + 2);
    var m, q := MantissaCount(f), packed / MantissaCount(f);
    assert packed == m * q + packed % m;
    MulMonotone(m, q, Reserved(f) - 1);
    DecodeMonotone(f, packed, EncodeMagnitude(f, c));
  }

  lemma AtLeastExp2(c: real, e: int)
    requires c >= Exp2(e)
    ensures FloorLog2(c) >= e
  {
    if FloorLog2(c) < e {
      Exp2Monotone(FloorLog2(c) + 1, e);
    }
  }

  /** In the binade just above the finite range the reserved exponent is written, so the
      value comes back as an infinity or, unless its mantissa rounds to zero, as NaN. */
  lemma ReservedBinade(f: Format, c: real, negative: bool)
    requires f.Valid() && Exp2(f.Bias() + 1) <= c < Exp2(f.Bias() + 2)
    ensures var raw := Encode(f, Finite(negative, c));
      raw >= 0 && Decode(f, raw) == (if ScaledFraction(f, c, f.Bias() + 1) < 0.5 then Infinity(negative) else NaN)
  {
    hide Exp2, FloorLog2;
    BiasOf(f);
    assert MantissaCount(f) == 2 * Pow2(f.man - 1);
    FloorLog2Unique(c, f.Bias() + 1);
    ReservedFields(f, c);
    UnpackSign(f, negative, EncodeMagnitude(f, c));
    RoundNear(ScaledFraction(f, c, f.Bias() + 1));
  }

  lemma ReservedFields(f: Format, c: real)
    requires f.Valid() && c > 0.0 && FloorLog2(c) == f.Bias() + 1
    ensures EncodeMagnitude(f, c) == Reserved(f) * MantissaCount(f) + NormalMantissa(f, c)
    ensures EncodeMagnitude(f, c) >= 0
    ensures EncodeMagnitude(f, c) / MantissaCount(f) == Reserved(f)
    ensures EncodeMagnitude(f, c) % MantissaCount(f) == NormalMantissa(f, c)
    ensures 0.0 <= ScaledFraction(f, c, f.Bias() + 1)
    ensures EncodeMagnitude(f, c) < Pow2(f.man + f.exp)
  {
    hide Exp2, FloorLog2, ScaledFraction;
    BiasOf(f);
    FractionInRange(f, c);
    var m := MantissaCount(f);
    MulMonotone(m, 0, Reserved(f));
    ModIs(EncodeMagnitude(f, c), m, Reserved(f), NormalMantissa(f, c));
    FieldsFit(f, Reserved(f), NormalMantissa(f, c));
  }

  lemma FieldsFit(f: Format, exponent: int, mantissa: nat)
    requires 0 <= exponent <= Reserved(f) && mantissa < MantissaCount(f)
    ensures 0 <= exponent * MantissaCount(f) + mantissa < Pow2(f.man + f.exp)
  {
    hide Pow2;
    Pow2Add(f.man, f.exp);
    var m := MantissaCount(f);
    MulMonotone(m, exponent + 1, Pow2(f.exp));
    MulMonotone(m, 0, exponent);
  }

  /** The sign bit and the packed fields are recovered independently. */
  lemma UnpackSign(f: Format, negative: bool, packed: nat)
    requires packed < Pow2(f.man + f.exp)
    ensures var raw := (if negative then Pow2(f.man + f.exp) else 0) + packed;
      (raw / Pow2(f.man + f.exp) != 0 <==> negative) && raw % Pow2(f.man + f.exp) == packed
  {
    hide Pow2;
    var s := Pow2(f.man + f.exp);
    ModIs((if negative then s else 0) + packed, s, if negative then 1 else 0, packed);
  }

  lemma MagnitudeFits(f: Format, c: real)
    requires f.Valid() && c > 0.0
    ensures 0 <= EncodeMagnitude(f, c) < Pow2(f.man + f.exp)
  {
    hide Exp2, Pow2, FloorLog2;
    BiasOf(f);
    var e := FloorLog2(c);
    if e + f.Bias() >= Pow2(f.exp) {
      FieldsFit(f, Reserved(f) - 1, MantissaCount(f) - 1);
    } else if Subnormal(f, c) {
      SubnormalFields(f, c);
      FieldsFit(f, 1, 0);
      FieldsFit(f, 0, 0);
    } else {
      FieldsFit(f, e + f.Bias(), NormalMantissa(f, c));
    }
  }

  /** Every value is encoded into exactly the bits of the format. */
  lemma EncodeFits(f: Format, v: Float)
    requires f.Valid()
    ensures 0 <= Encode(f, v) < 2 * Pow2(f.man + f.exp)
  {
    hide Exp2, FloorLog2, EncodeMagnitude;
    BiasOf(f);
    FieldsFit(f, Reserved(f), 0);
    FieldsFit(f, Reserved(f), 1);
    if v.Finite? && v.magnitude > 0.0 {
      MagnitudeFits(f, v.magnitude);
    }
  }

  /** Below the overflow threshold the sign survives and the magnitude is rounded. */
  lemma DecodeOfEncode(f: Format, negative: bool, c: Magnitude)
    requires f.Valid() && c < Exp2(f.Bias() + 1)
    ensures var raw := Encode(f, Finite(negative, c));
      raw >= 0 && Decode(f, raw) == Finite(negative, if c == 0.0 then 0.0 else Rounded(f, c))
  {
    hide Exp2, Pow2, FloorLog2, EncodeMagnitude;
    BiasOf(f);
    if c == 0.0 {
      UnpackSign(f, negative, 0);
      ModIs(0, MantissaCount(f), 0, 0);
    } else {
      PackedIsNat(f, c);
      MagnitudeFits(f, c);
      UnpackSign(f, negative, EncodeMagnitude(f, c));
    }
  }

  /** What a value has become once it was encoded and decoded. */
  function Reread(f: Format, v: Float): Float
    requires f.Valid()
  {
    EncodeFits(f, v);
    Decode(f, Encode(f, v))
  }

  predicate IsWhole(x: real) {
    x.Floor as real == x
  }

  /** A finite value is representable when it lies below the overflow threshold and is a whole
      number of units in the last place. */
  predicate Representable(f: Format, v: Float)
    requires f.Valid()
  {
    v.Finite? ==> v.magnitude == 0.0 || (v.magnitude < Exp2(f.Bias() + 1) && IsWhole(Units(f, v.magnitude)))
  }

  /** Exactly the representable values survive encoding and decoding. */
  lemma SurvivesIffRepresentable(f: Format, v: Float)
    requires f.Valid()
    ensures Reread(f, v) == v <==> Representable(f, v)
  {
    hide Exp2, Pow2, FloorLog2, EncodeMagnitude, DecodeMagnitude, Encode, Decode, Units, Rounded;
    EncodeFits(f, v);
    match v
    case NaN => QuietNaN(f);
    case Infinity(negative) => InfinitySurvives(f, negative);
    case Finite(negative, c) =>
      if c < Exp2(f.Bias() + 1) {
        DecodeOfEncode(f, negative, c);
        if c > 0.0 {
          RoundedIsExact(f, c);
        }
      } else {
        DecodedIsBounded(f, Encode(f, v));
      }
  }

  /** One tenth is among the values that do not: in half precision it is 1638.4 units. */
  lemma OneTenthIsLost()
    ensures Reread(SEMI, Finite(false, 0.1)) != Finite(false, 0.1)
  {
    hide Pow2, Encode, Decode, Exp2, Reread;
    OneTenthInUnits();
    SurvivesIffRepresentable(SEMI, Finite(false, 0.1));
  }

  lemma OneTenthInUnits()
    ensures Units(SEMI, 0.1) == 1638.4
  {
    hide FloorLog2;
    assert Exp2(-3) == 1.0 / 8.0 && Exp2(-4) == 1.0 / 16.0;
    FloorLog2Unique(0.1, -4);
    Pow2Add(5, 5);
    assert Pow2(5) == 32 && MantissaCount(SEMI) == 1024 && SEMI.Bias() == 15;
  }

  lemma RoundedIsExact(f: Format, c: real)
    requires f.Valid() && 0.0 < c < Exp2(f.Bias() + 1)
    ensures Rounded(f, c) == c <==> IsWhole(Units(f, c))
  {
    hide *;
    ErrorInUnits(f, c);
    NoError(Rounded(f, c), c, RoundedUnits(f, c), Units(f, c), Ulp(f, c));
    WholeUnitsStay(f, c);
  }

  lemma NoError(r: real, c: real, k: int, x: real, u: real)
    requires u > 0.0 && Abs(r - c) == Abs(k as real - x) * u
    ensures r == c <==> k as real == x
  {
    var d := Abs(k as real - x);
    if r == c {
      assert d == 0.0;
    }
  }

  lemma WholeUnitsStay(f: Format, c: real)
    requires f.Valid() && 0.0 < c < Exp2(f.Bias() + 1)
    ensures RoundedUnits(f, c) as real == Units(f, c) <==> IsWhole(Units(f, c))
  {
    hide *;
    ErrorOfUnits(f, c);
    if IsWhole(Units(f, c)) {
      WholeIsNotClamped(f, c);
      WholeIs(Units(f, c));
      NearestWhole(RoundedUnits(f, c), Units(f, c).Floor);
    } else {
      IntIsWhole(RoundedUnits(f, c));
    }
  }

  lemma WholeIs(x: real)
    requires IsWhole(x)
    ensures x == x.Floor as real
  {
  }

  lemma IntIsWhole(k: int)
    ensures IsWhole(k as real)
  {
  }

  lemma NearestWhole(k: int, n: int)
    requires Abs(k as real - n as real) <= 0.5
    ensures k == n
  {
    assert k as real - n as real == (k - n) as real;
  }

  lemma WholeIsNotClamped(f: Format, c: real)
    requires f.Valid() && c > 0.0 && IsWhole(Units(f, c))
    ensures !Clamped(f, c)
  {
    hide Exp2, Pow2, FloorLog2, ScaledFraction, ScaledSubnormal, IsWhole, MantissaCount;
    if !Subnormal(f, c) {
      FractionInRange(f, c);
      WholeBelow(ScaledFraction(f, c, FloorLog2(c)), MantissaCount(f), Units(f, c));
    }
  }

  lemma WholeBelow(x: real, m: nat, u: real)
    requires u == x + m as real && IsWhole(u) && x < m as real
    ensures x <= m as real - 1.0
  {
    assert u.Floor - m < m;
  }

  /** No pattern stands for a finite value at or above the overflow threshold. */
  lemma DecodedIsBounded(f: Format, raw: nat)
    requires f.Valid() && raw < 2 * Pow2(f.man + f.exp)
    ensures var v := Decode(f, raw); v.Finite? ==> v.magnitude < Exp2(f.Bias() + 1)
  {
    hide Exp2, Pow2, DecodeMagnitude;
    var packed := raw % Pow2(f.man + f.exp);
    ExponentFits(f, packed);
    if packed / MantissaCount(f) != Reserved(f) {
      MagnitudeIsBounded(f, packed);
    }
  }

  lemma MagnitudeIsBounded(f: Format, packed: nat)
    requires f.Valid() && packed / MantissaCount(f) < Reserved(f)
    ensures DecodeMagnitude(f, packed) < Exp2(f.Bias() + 1)
  {
    hide Exp2, Pow2;
    BiasOf(f);
    var m, q, r := MantissaCount(f), packed / MantissaCount(f), packed % MantissaCount(f);
    var c := DecodeMagnitude(f, packed);
    if q == 0 {
      FractionBelow(r, m, Exp2(1 - f.Bias()), c);
      Exp2Monotone(1 - f.Bias(), f.Bias() + 1);
    } else {
      NormalBinade(r, m, Exp2(q - f.Bias()), c);
      Exp2Next(q - f.Bias());
      Exp2Monotone(q - f.Bias() + 1, f.Bias() + 1);
    }
  }

  lemma InfinitySurvives(f: Format, negative: bool)
    requires f.Valid()
    ensures Reread(f, Infinity(negative)) == Infinity(negative)
  {
    hide Exp2, FloorLog2;
    BiasOf(f);
    var m := MantissaCount(f);
    EncodeFits(f, Infinity(negative));
    FieldsFit(f, Reserved(f), 0);
    UnpackSign(f, negative, Reserved(f) * m);
    ModIs(Reserved(f) * m, m, Reserved(f), 0);
  }

  /** Every value some bit pattern stands for is representable. */
  lemma DecodedIsRepresentable(f: Format, raw: nat)
    requires f.Valid() && raw < 2 * Pow2(f.man + f.exp)
    ensures Representable(f, Decode(f, raw))
  {
    hide Exp2, Pow2, Encode, Decode, Representable;
    EncodeOfDecode(f, raw);
    EncodeFits(f, NaN);
    QuietNaN(f);
    SurvivesIffRepresentable(f, Decode(f, raw));
  }

  /** A pattern that is no NaN, or the one NaN the encoder writes. */
  predicate QuietPattern(f: Format, raw: nat)
    requires f.Valid()
  {
    EncodeFits(f, NaN);
    IsNaNPattern(f, raw) ==> raw == Encode(f, NaN)
  }

  /** Exactly the quiet patterns are reproduced. */
  lemma ReproducedIffQuiet(f: Format, raw: nat)
    requires f.Valid() && raw < 2 * Pow2(f.man + f.exp)
    ensures Encode(f, Decode(f, raw)) == raw <==> QuietPattern(f, raw)
  {
    hide Exp2, Pow2, Encode, Decode;
    EncodeOfDecode(f, raw);
  }

  /** Rounding preserves order on every pair below the overflow threshold, 0 included. */
  lemma RoundingMonotone(f: Format, negative: bool, x: Magnitude, y: Magnitude)
    requires f.Valid() && x <= y < Exp2(f.Bias() + 1)
    ensures var a, b := Reread(f, Finite(negative, x)), Reread(f, Finite(negative, y));
      a.Finite? && b.Finite? && a.negative == b.negative == negative && a.magnitude <= b.magnitude
  {
    hide Exp2, Pow2, Encode, Decode, Rounded;
    DecodeOfEncode(f, negative, x);
    DecodeOfEncode(f, negative, y);
    if x > 0.0 {
      RoundedMonotone(f, x, y);
    }
  }

  lemma QuietNaN(f: Format)
    requires f.Valid()
    ensures Encode(f, NaN) >= 0 && Decode(f, Encode(f, NaN)).NaN?
  {
    hide Exp2, FloorLog2;
    BiasOf(f);
    var m := MantissaCount(f);
    assert m == 2 * Pow2(f.man - 1);
    FieldsFit(f, Reserved(f), 1);
    UnpackSign(f, false, Reserved(f) * m + 1);
    ModIs(Reserved(f) * m + 1, m, Reserved(f), 1);
  }

  // ----- The bits in the terms of IEEE 754 -----

  /** Sign, exponent and mantissa fields put together. */
  function FieldBits(f: Format, negative: bool, e: nat, m: nat): nat {
    (if negative then Pow2(f.man + f.exp) else 0) + (e * Pow2(f.man) + m)
  }

  /** What a pattern stands for, field by field: the reserved exponent for infinities and NaN,
      exponent 0 for subnormals, and a hidden bit and a biased exponent for the others. */
  lemma FieldsMeanIEEE(f: Format, negative: bool, e: nat, m: nat)
    requires f.Valid() && e < Pow2(f.exp) && m < Pow2(f.man)
    ensures Decode(f, FieldBits(f, negative, e, m))
         == if e == Pow2(f.exp) - 1 then (if m == 0 then Infinity(negative) else NaN)
            else Finite(negative,
              if e == 0 then m as real / Pow2(f.man) as real * Exp2(2 - Pow2(f.exp - 1))
              else (Pow2(f.man) + m) as real / Pow2(f.man) as real * Exp2(e + 1 - Pow2(f.exp - 1)))
  {
    hide Pow2, Exp2, DecodeMagnitude;
    FieldsFit(f, e, m);
    UnpackSign(f, negative, e * Pow2(f.man) + m);
    ModIs(e * Pow2(f.man) + m, Pow2(f.man), e, m);
    DecodeFields(f, e * Pow2(f.man) + m, e, m);
  }

  /** The patterns written for NaN, the infinities and the zeros. */
  lemma SpecialPatterns(f: Format, negative: bool)
    requires f.Valid()
    ensures Encode(f, NaN) == FieldBits(f, false, Pow2(f.exp) - 1, 1)
    ensures Encode(f, Infinity(negative)) == FieldBits(f, negative, Pow2(f.exp) - 1, 0)
    ensures Encode(f, Finite(negative, 0.0)) == FieldBits(f, negative, 0, 0)
  {
    hide Pow2;
  }

  /** A non-zero value is rounded to the nearest number of units, halves going up; only the top
      of a binade is held below the next one. */
  lemma RoundsToNearest(f: Format, c: real)
    requires f.Valid() && 0.0 < c < Exp2(f.Bias() + 1)
    ensures var u, m := Units(f, c), Pow2(f.man) as real;
      var k := if Subnormal(f, c) || u < 2.0 * m - 0.5 then (u + 0.5).Floor as real else 2.0 * m - 1.0;
      Rounded(f, c) == k / m * Exp2(UlpBinade(f, c)) && Ulp(f, c) == Exp2(UlpBinade(f, c)) / m
  {
    hide Exp2, Pow2, FloorLog2, Rounded;
    UnitsAre(f, c);
    RoundedUnitsAre(f, c);
  }

  lemma RoundedUnitsAre(f: Format, c: real)
    requires f.Valid() && c > 0.0
    ensures var u, m := Units(f, c), MantissaCount(f) as real;
      RoundedUnits(f, c) as real
      == if Subnormal(f, c) || u < 2.0 * m - 0.5 then (u + 0.5).Floor as real else 2.0 * m - 1.0
  {
    hide Exp2, Pow2, FloorLog2, MantissaCount, ScaledFraction, ScaledSubnormal;
    if !Subnormal(f, c) {
      FractionInRange(f, c);
      WholeShift(ScaledFraction(f, c, FloorLog2(c)), MantissaCount(f));
      RoundBelow(ScaledFraction(f, c, FloorLog2(c)), MantissaCount(f));
    }
  }

  lemma WholeShift(x: real, m: nat)
    ensures (x + m as real + 0.5).Floor == m + (x + 0.5).Floor
  {
    assert x + m as real + 0.5 == (x + 0.5) + m as real;
  }

  lemma RoundBelow(x: real, m: nat)
    requires 0.0 <= x < m as real
    ensures x < m as real - 0.5 <==> Round(x) < m
    ensures x >= m as real - 0.5 ==> Round(x) == m
  {
  }

  // ----- The encoder and decoder as the source runs them -----

  /** The finite, non-zero branch; None stands for the exception "Mantissa failure". */
  method EncodeFields(f: Format, value: real) returns (fields: Option<(int, int)>)
    requires f.Valid() && value > 0.0
    ensures fields.Some?
    ensures fields.value.0 * MantissaCount(f) + fields.value.1 == EncodeMagnitude(f, value)
  {
    hide Exp2, Pow2, FloorLog2;
    var exponent, mantissa := 0, 0;
    var current := value;
    var signedExponent := FloorLog2(current);
    InBinade(current, signedExponent);
    if current / Exp2(signedExponent) >= 2.0 {
      signedExponent := signedExponent + 1;
    }
    BiasOf(f);
    var halfExponentRange := (Pow2(f.exp) - 1) / 2;
    var unsignedExponent := signedExponent + halfExponentRange;
    if unsignedExponent >= Pow2(f.exp) {
      mantissa := Pow2(f.man) - 1;
      exponent := Pow2(f.exp) - 2;
    } else if unsignedExponent <= 0 {
      exponent := 0;
      current := current / Exp2(-(halfExponentRange - 1));
      mantissa := Round(current * Pow2(f.man) as real);
      assert mantissa == Round(ScaledSubnormal(f, value));
    } else {
      exponent := unsignedExponent;
      current := current / Exp2(signedExponent);
      current := current - 1.0;
      FractionInRange(f, value);
      if current >= 1.0 {
        mantissa := Pow2(f.man) - 1;
      } else if current >= 0.0 {
        mantissa := Round(current * Pow2(f.man) as real);
        assert mantissa == Round(ScaledFraction(f, value, signedExponent));
        if mantissa >= Pow2(f.man) {
          mantissa := Pow2(f.man) - 1;
        }
      } else {
        return None;
      }
    }
    fields := Some((exponent, mantissa));
  }

  method EncodeFloat(f: Format, value: Float) returns (encoded: Option<int>)
    requires f.Valid()
    ensures encoded == Some(Encode(f, value))
  {
    hide Pow2, EncodeMagnitude;
    var exponent, mantissa, isNegative := 0, 0, false;
    match value {
      case NaN =>
        mantissa := 1;
        exponent := Pow2(f.exp) - 1;
      case Infinity(negative) =>
        exponent := Pow2(f.exp) - 1;
        isNegative := negative;
      case Finite(negative, magnitude) =>
        isNegative := negative;
        if magnitude != 0.0 {
          var fields := EncodeFields(f, magnitude);
          if fields.None? {
            return None;
          }
          exponent, mantissa := fields.value.0, fields.value.1;
        }
    }
    encoded := Some(Pack(f, isNegative, exponent, mantissa));
  }

  /** The two finite branches of the decoder, before the sign is applied. */
  method DecodeFinite(f: Format, exponent: nat, mantissa: nat) returns (magnitude: real)
    requires f.Valid() && mantissa < Pow2(f.man)
    ensures magnitude == DecodeMagnitude(f, Pow2(f.man) * exponent + mantissa)
  {
    hide Exp2, Pow2, DecodeMagnitude;
    var halfExponent := Pow2(f.exp - 1) - 1;
    var mantissaDivisor := Pow2(f.man);
    DecodeFields(f, mantissaDivisor * exponent + mantissa, exponent, mantissa);
    if exponent == 0 {
      magnitude := mantissa as real / mantissaDivisor as real * Exp2(-(halfExponent - 1));
    } else {
      var hidden := mantissaDivisor;
      magnitude := (hidden + mantissa) as real / mantissaDivisor as real * Exp2(exponent - halfExponent);
    }
  }

  method DecodeFloat(f: Format, raw: nat) returns (value: Float)
    requires f.Valid() && raw < 2 * Pow2(f.man + f.exp)
    ensures value == Decode(f, raw)
  {
    hide Exp2, Pow2, DecodeMagnitude;
    var isNegative := raw / Pow2(f.man + f.exp) != 0;
    var exponent := raw / Pow2(f.man) % Pow2(f.exp);
    var mantissa := raw % Pow2(f.man);
    FieldsOf(raw, Pow2(f.man), Pow2(f.exp));
    assert Pow2(f.man + f.exp) == Pow2(f.man) * Pow2(f.exp) by { Pow2Add(f.man, f.exp); }
    if exponent == Pow2(f.exp) - 1 {
      value := if mantissa != 0 then NaN else Infinity(isNegative);
    } else {
      var magnitude := DecodeFinite(f, exponent, mantissa);
      assert Pow2(f.man) * exponent + mantissa == raw % Pow2(f.man + f.exp);
      value := Finite(isNegative, magnitude);
    }
  }

  lemma FieldsOf(raw: nat, m: nat, n: nat)
    requires m >= 1 && n >= 1
    ensures m * n >= 1
    ensures raw / m % n == raw % (m * n) / m
    ensures raw % m == raw % (m * n) % m
  {
    MulMonotone(m, 1, n);
    var q, p := raw / (m * n), raw % (m * n);
    var x, r := p / m, p % m;
    assert raw == m * (n * q + x) + r by {
      assert (m * n) * q == m * (n * q);
    }
    QuotientBelow(p, m, n);
    MulMonotone(n, 0, q);
    ModIs(raw, m, n * q + x, r);
    ModIs(n * q + x, n, q, x);
  }
}
