/** Sequence numbers as JavaScript numbers: `Number` of a 64-bit BigInt. */
module NumberJs {
  /** The distance between neighbouring doubles at v. */
  function Unit(v: nat): (u: nat)
    ensures u >= 1
  {
    if v < 0x20_0000_0000_0000 then 1 else 2 * Unit(v / 2)
  }

  function RoundTo(v: nat, u: nat): nat
    requires u >= 1
  {
    Nearest(v / u, v % u, u)
  }

  /** The multiple of u nearest to q * u + r, on a tie the even one. */
  function Nearest(q: nat, r: nat, u: nat): nat {
    if 2 * r < u || (2 * r == u && q % 2 == 0) then q * u else (q + 1) * u
  }

  /** `Number(v)` of a BigInt: the nearest double, ties to even. */
  function Number(v: nat): nat {
    RoundTo(v, Unit(v))
  }

  lemma {:induction false} UnitBounds(v: nat)
    ensures v < 0x20_0000_0000_0000 * Unit(v)
    ensures Unit(v) > 1 ==> 0x10_0000_0000_0000 * Unit(v) <= v
  {
    if v >= 0x20_0000_0000_0000 {
      UnitBounds(v / 2);
    }
  }

  lemma {:induction false} UnitDoubles(a: nat, b: nat)
    requires a <= b
    ensures Unit(a) == Unit(b) || 2 * Unit(a) <= Unit(b)
  {
    if a >= 0x20_0000_0000_0000 {
      UnitDoubles(a / 2, b / 2);
    }
  }

  lemma Times(a: nat, b: nat, u: nat)
    requires a <= b
    ensures a * u <= b * u
  {
  }

  lemma RoundBounds(v: nat, u: nat)
    requires u >= 1
    ensures v / u * u <= RoundTo(v, u) <= (v / u + 1) * u
  {
    Times(v / u, v / u + 1, u);
  }

  lemma QuotientMonotone(qa: nat, ra: nat, qb: nat, rb: nat, u: nat)
    requires ra < u && rb < u && qa * u + ra <= qb * u + rb
    ensures qa <= qb && (qa == qb ==> ra <= rb)
  {
    if qa > qb {
      Times(qb + 1, qa, u);
      assert false;
    }
  }

  lemma NearestMonotone(q: nat, ra: nat, rb: nat, u: nat)
    requires ra <= rb
    ensures Nearest(q, ra, u) <= Nearest(q, rb, u)
  {
    Times(q, q + 1, u);
  }

  lemma RoundMonotone(a: nat, b: nat, u: nat)
    requires a <= b && u >= 1
    ensures RoundTo(a, u) <= RoundTo(b, u)
  {
    var qa, qb := a / u, b / u;
    assert a == qa * u + a % u && b == qb * u + b % u;
    QuotientMonotone(qa, a % u, qb, b % u, u);
    if qa < qb {
      RoundBounds(a, u);
      RoundBounds(b, u);
      hide RoundTo;
      Times(qa + 1, qb, u);
    } else {
      hide Nearest;
      NearestMonotone(qa, a % u, b % u, u);
    }
  }

  /** Rounding stays within the bounds of a binade. */
  lemma RoundWithin(v: nat, u: nat, lo: nat, hi: nat)
    requires u >= 1 && lo * u <= v < hi * u
    ensures lo * u <= RoundTo(v, u) <= hi * u
  {
    RoundBounds(v, u);
    hide RoundTo;
    var q := v / u;
    assert v == q * u + v % u;
    if q < lo {
      Times(q + 1, lo, u);
    } else {
      Times(lo, q, u);
    }
    if q >= hi {
      Times(hi, q, u);
    } else {
      Times(q + 1, hi, u);
    }
  }

  lemma NumberMonotone(a: nat, b: nat)
    requires a <= b
    ensures Number(a) <= Number(b)
  {
    hide RoundTo;
    var u, w := Unit(a), Unit(b);
    UnitDoubles(a, b);
    if u == w {
      RoundMonotone(a, b, u);
    } else {
      UnitBounds(a);
      UnitBounds(b);
      RoundWithin(a, u, 0, 0x20_0000_0000_0000);
      RoundWithin(b, w, 0x10_0000_0000_0000, b + 1);
    }
  }

  /** A double of this size: an integer of at most 53 bits times a power of two. */
  ghost predicate Double(v: nat) {
    exists k: nat, e: nat :: Scaled(v, k, e)
  }

  function Power(e: nat): (p: nat)
    ensures p >= 1
  {
    if e == 0 then 1 else 2 * Power(e - 1)
  }

  predicate Scaled(v: nat, k: nat, e: nat) {
    k < 0x20_0000_0000_0000 && v == k * Power(e)
  }

  function Exponent(v: nat): (e: nat)
    ensures Power(e) == Unit(v)
  {
    if v < 0x20_0000_0000_0000 then 0 else 1 + Exponent(v / 2)
  }

  lemma {:induction false} PowerSplits(e: nat, f: nat)
    ensures f >= e ==> Power(f) == Power(f - e) * Power(e)
    ensures f < e ==> 2 * Power(f) <= Power(e)
  {
    if f > e {
      PowerSplits(e, f - 1);
      var p: nat, u: nat := Power(f - 1 - e), Power(e);
      assert 2 * (p * u) == (2 * p) * u;
    } else if f < e - 1 {
      PowerSplits(e - 1, f);
    }
  }

  lemma TimesAssociates(a: nat, b: nat, c: nat)
    ensures a * (b * c) == (a * b) * c
  {
  }

  lemma TimesStep(q: nat, u: nat)
    ensures (q + 1) * u == q * u + u
  {
  }

  /** No double lies strictly between the two multiples of the unit around v. */
  lemma DoublesOutside(v: nat, d: nat)
    requires Double(d) && Unit(v) > 1
    ensures var u := Unit(v); d <= v / u * u || (v / u + 1) * u <= d
  {
    var u, e, q := Unit(v), Exponent(v), v / Unit(v);
    var k: nat, f: nat :| Scaled(d, k, f);
    PowerSplits(e, f);
    UnitBounds(v);
    if f >= e {
      TimesAssociates(k, Power(f - e), u);
      var j := k * Power(f - e);
      assert d == j * u;
      if j <= q {
        Times(j, q, u);
      } else {
        Times(q + 1, j, u);
      }
    } else {
      Times(k, 0x20_0000_0000_0000, Power(f));
      assert d <= 0x10_0000_0000_0000 * u;
      QuotientAtLeast(v, u, 0x10_0000_0000_0000);
      Times(0x10_0000_0000_0000, q, u);
    }
  }

  lemma QuotientAtLeast(v: nat, u: nat, lo: nat)
    requires u >= 1 && lo * u <= v
    ensures lo <= v / u
  {
    QuotientMonotone(lo, 0, v / u, v % u, u);
  }

  function Distance(a: nat, b: nat): nat {
    if a < b then b - a else a - b
  }

  lemma NearestOfTwo(q: nat, r: nat, u: nat, d: nat)
    requires r < u && (d <= q * u || (q + 1) * u <= d)
    ensures Distance(q * u + r, Nearest(q, r, u)) <= Distance(q * u + r, d)
  {
    TimesStep(q, u);
  }

  lemma RoundedIsDouble(v: nat)
    ensures Double(Number(v))
  {
    var u, e, q := Unit(v), Exponent(v), v / Unit(v);
    UnitBounds(v);
    assert v == q * u + v % u;
    if q >= 0x20_0000_0000_0000 {
      Times(0x20_0000_0000_0000, q, u);
      assert false;
    }
    if Number(v) == q * u {
      assert Scaled(Number(v), q, e);
    } else if q + 1 < 0x20_0000_0000_0000 {
      assert Scaled(Number(v), q + 1, e);
    } else {
      assert Scaled(Number(v), 0x10_0000_0000_0000, e + 1);
    }
  }

  lemma MultipleDivides(q: nat, u: nat)
    requires u >= 1
    ensures q * u / u == q
  {
    QuotientMonotone(q, 0, q * u / u, q * u % u, u);
    QuotientMonotone(q * u / u, q * u % u, q, 0, u);
  }

  lemma TieIsEven(q: nat, r: nat, u: nat)
    requires r < u && 2 * Distance(q * u + r, Nearest(q, r, u)) == u
    ensures Nearest(q, r, u) / u % 2 == 0
  {
    TimesStep(q, u);
    MultipleDivides(q, u);
    MultipleDivides(q + 1, u);
  }

  /** Number(v) is a double, no double is nearer to v, and of two nearest ones it is the even one. */
  lemma NumberIsNearest(v: nat, d: nat)
    requires Double(d)
    ensures Double(Number(v)) && Distance(v, Number(v)) <= Distance(v, d)
    ensures 2 * Distance(v, Number(v)) == Unit(v) ==> Number(v) / Unit(v) % 2 == 0
  {
    hide Unit, Double;
    RoundedIsDouble(v);
    var u, q, r := Unit(v), v / Unit(v), v % Unit(v);
    assert v == q * u + r;
    assert Number(v) == Nearest(q, r, u);
    hide Number, Nearest;
    if u > 1 {
      DoublesOutside(v, d);
      NearestOfTwo(q, r, u, d);
      if 2 * Distance(v, Number(v)) == u {
        TieIsEven(q, r, u);
      }
    } else {
      UnitIsOne(v);
    }
  }

  lemma UnitIsOne(v: nat)
    requires Unit(v) == 1
    ensures Number(v) == v
  {
  }

  /** Up to 2^53 every number is exact. */
  lemma NumberExact(v: nat)
    requires v <= 0x20_0000_0000_0000
    ensures Number(v) == v
  {
  }

  /** Above 2^53 neighbours collapse, so a strictly larger number need not look larger. */
  lemma NumberCollapses()
    ensures Number(0x20_0000_0000_0001) == Number(0x20_0000_0000_0000)
  {
    assert Unit(0x20_0000_0000_0001) == 2;
  }
}
