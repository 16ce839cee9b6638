/** The all-in fee of common/fee-breakdown.ts: whole pesos, rates as exact percentages. */
module Fees {
  import opened Wrappers

  datatype FeeMode = MANAGED | OWN_METHOD | OWN_GATEWAY | FREE | ACADEMY

  datatype FeeBreakdown = FeeBreakdown(feeMode: FeeMode, platformFeeRate: Option<real>, platformFeeNet: int,
                                       platformFeeVat: int, gatewayFeeExpected: int, producerNet: int)

  /** Math.round: half up, also below zero. */
  function Round(x: real): int {
    (x + 0.5).Floor
  }

  function Percent(amount: int, pct: real): real {
    amount as real * pct / 100.0
  }

  function Max(a: int, b: int): int {
    if a >= b then a else b
  }

  datatype Parts = Parts(deduction: int, gateway: int, net: int, vat: int)

  function Decompose(amount: int, feeRatePct: real, gatewayPct: real, ivaPct: real): Parts
    requires ivaPct != -100.0
  {
    var deduction := Round(Percent(amount, feeRatePct));
    var gateway := Round(Percent(amount, gatewayPct));
    var gross := Max(0, deduction - gateway);
    var net := Round(gross as real / (1.0 + ivaPct / 100.0));
    Parts(deduction, gateway, net, gross - net)
  }

  function ManagedFeeBreakdown(amount: int, allInPct: real, cardPct: real, ivaPct: real): FeeBreakdown
    requires ivaPct != -100.0
  {
    if amount <= 0 then FeeBreakdown(FREE, None, 0, 0, 0, 0)
    else
      var p := Decompose(amount, allInPct, cardPct, ivaPct);
      FeeBreakdown(MANAGED, Some(allInPct), p.net, p.vat, p.gateway, amount - Round(Percent(amount, allInPct)))
  }

  function OwnMethodRate(allInPct: real, cardPct: real): real {
    if allInPct - cardPct >= 0.0 then allInPct - cardPct else 0.0
  }

  function AcademyFeeBreakdown(amount: int, cardPct: real): FeeBreakdown {
    FeeBreakdown(ACADEMY, None, 0, 0, if amount > 0 then Round(Percent(amount, cardPct)) else 0, amount)
  }

  function OwnMethodBreakdown(amount: int, allInPct: real, cardPct: real, ivaPct: real, mode: FeeMode): FeeBreakdown
    requires ivaPct != -100.0
  {
    var rate := OwnMethodRate(allInPct, cardPct);
    if amount <= 0 || rate <= 0.0 then FeeBreakdown(mode, Some(rate), 0, 0, 0, amount)
    else
      var p := Decompose(amount, rate, 0.0, ivaPct);
      FeeBreakdown(mode, Some(rate), p.net, p.vat, 0, amount - p.deduction)
  }

  function Total(b: FeeBreakdown): int {
    b.producerNet + b.platformFeeNet + b.platformFeeVat + b.gatewayFeeExpected
  }

  // ---------------------------------------------------------------- rounding

  lemma RoundBounds(x: real)
    ensures x - 0.5 < Round(x) as real <= x + 0.5
  {
  }

  lemma RoundMonotone(x: real, y: real)
    requires x <= y
    ensures Round(x) <= Round(y)
  {
  }

  lemma PercentMonotone(amount: int, p: real, q: real)
    requires amount >= 0 && p <= q
    ensures Percent(amount, p) <= Percent(amount, q)
  {
    assert amount as real * p <= amount as real * q;
  }

  lemma Scale(x: real, y: real, factor: real)
    requires x <= y && factor >= 0.0
    ensures x * factor <= y * factor
  {
  }

  /** The difference of two rounded amounts is within a peso of the rounded difference. */
  lemma RoundDifference(x: real, y: real)
    ensures -1 <= Round(x) - Round(y) - Round(x - y) <= 1
  {
    RoundBounds(x);
    RoundBounds(y);
    RoundBounds(x - y);
    var d := Round(x) - Round(y) - Round(x - y);
    assert -1.5 < d as real < 1.5;
  }

  // ---------------------------------------------------------------- conservation

  /** The parts of a managed order add up to the amount exactly when the gateway does not cost more than the deduction;
      otherwise they exceed it by the difference. */
  lemma ManagedConserves(amount: int, allInPct: real, cardPct: real, ivaPct: real)
    requires amount > 0 && ivaPct != -100.0
    ensures var b, deduction := ManagedFeeBreakdown(amount, allInPct, cardPct, ivaPct),
        Round(Percent(amount, allInPct));
            && Total(b) == amount + Max(0, b.gatewayFeeExpected - deduction)
            && (Total(b) == amount <==> b.gatewayFeeExpected <= deduction)
            && (allInPct >= cardPct ==> Total(b) == amount)
  {
    if allInPct >= cardPct {
      PercentMonotone(amount, cardPct, allInPct);
      RoundMonotone(Percent(amount, cardPct), Percent(amount, allInPct));
    }
  }

  /** All-in 1 percent under a card cost of 3 percent: the parts of 100 pesos are 102. */
  lemma PartsExceedAmount()
    ensures Total(ManagedFeeBreakdown(100, 1.0, 3.0, 19.0)) == 102
  {
    assert Percent(100, 1.0) == 1.0 && Percent(100, 3.0) == 3.0;
    ManagedConserves(100, 1.0, 3.0, 19.0);
  }

  /** The parts of a sale by the producer's own methods always add up, whatever the amount and the rates. */
  lemma OwnMethodConserves(amount: int, allInPct: real, cardPct: real, ivaPct: real, mode: FeeMode)
    requires ivaPct != -100.0
    ensures Total(OwnMethodBreakdown(amount, allInPct, cardPct, ivaPct, mode)) == amount
  {
    var rate := OwnMethodRate(allInPct, cardPct);
    if amount > 0 && rate > 0.0 {
      assert Percent(amount, 0.0) == 0.0;
      PercentMonotone(amount, 0.0, rate);
      RoundMonotone(0.0, Percent(amount, rate));
    }
  }

  lemma NetWithinGross(gross: int, ivaPct: real)
    requires gross >= 0 && ivaPct >= 0.0
    ensures 0 <= Round(gross as real / (1.0 + ivaPct / 100.0)) <= gross
  {
    var f := 1.0 + ivaPct / 100.0;
    var q := gross as real / f;
    assert q * f == gross as real;
    assert 0.0 <= q;
    Scale(1.0, f, q);
    RoundMonotone(q, gross as real);
  }

  lemma DeductionWithinAmount(amount: int, pct: real)
    requires amount >= 0 && 0.0 <= pct <= 100.0
    ensures 0 <= Round(Percent(amount, pct)) <= amount
  {
    PercentMonotone(amount, 0.0, pct);
    PercentMonotone(amount, pct, 100.0);
    assert Percent(amount, 0.0) == 0.0 && Percent(amount, 100.0) == amount as real;
    RoundMonotone(Percent(amount, pct), amount as real);
  }

  /** With rates between 0 and 100 percent no part is negative, so nobody receives more than was paid. */
  lemma PartsNonNegative(amount: int, allInPct: real, cardPct: real, ivaPct: real, mode: FeeMode)
    requires amount >= 0 && 0.0 <= cardPct <= 100.0 && 0.0 <= allInPct <= 100.0 && ivaPct >= 0.0
    ensures forall b :: b in {ManagedFeeBreakdown(amount, allInPct, cardPct, ivaPct),
                              OwnMethodBreakdown(amount, allInPct, cardPct, ivaPct, mode),
                              AcademyFeeBreakdown(amount, cardPct)} ==>
              b.producerNet >= 0 && b.platformFeeNet >= 0 && b.platformFeeVat >= 0 && b.gatewayFeeExpected >= 0
  {
    var rate := OwnMethodRate(allInPct, cardPct);
    DeductionWithinAmount(amount, allInPct);
    DeductionWithinAmount(amount, cardPct);
    DeductionWithinAmount(amount, rate);
    NetWithinGross(Max(0, Round(Percent(amount, allInPct)) - Round(Percent(amount, cardPct))), ivaPct);
    NetWithinGross(Max(0, Round(Percent(amount, rate)) - Round(Percent(amount, 0.0))), ivaPct);
  }

  // ---------------------------------------------------------------- bounds

  /** The split between net and VAT is off by the rounding of the net only: VAT is within (1 + iva) / 2 of iva times
      net. */
  lemma VatBound(amount: int, feeRatePct: real, gatewayPct: real, ivaPct: real)
    requires ivaPct >= 0.0
    ensures var p, iva := Decompose(amount, feeRatePct, gatewayPct, ivaPct), ivaPct / 100.0;
            -(1.0 + iva) / 2.0 <= p.vat as real - iva * p.net as real <= (1.0 + iva) / 2.0
  {
    var p, iva := Decompose(amount, feeRatePct, gatewayPct, ivaPct), ivaPct / 100.0;
    var gross := Max(0, p.deduction - p.gateway);
    var q := gross as real / (1.0 + iva);
    var err := p.net as real - q;
    RoundBounds(q);
    assert q * (1.0 + iva) == gross as real;
    assert p.vat as real - iva * p.net as real == -(1.0 + iva) * err by {
      assert p.net as real * (1.0 + iva) == q * (1.0 + iva) + err * (1.0 + iva);
    }
    assert -0.5 <= err <= 0.5;
    Scale(err, 0.5, 1.0 + iva);
    Scale(-0.5, err, 1.0 + iva);
  }

  /** The fields of a managed order: the rate is the all-in rate; the VAT is within (1 + iva) / 2 of iva times the net
      fee; gateway and deduction are the card's and the all-in share of the amount rounded half up, and the producer
      gets the rest. Nothing is taken of a free one. */
  lemma ManagedFields(amount: int, allInPct: real, cardPct: real, ivaPct: real)
    requires ivaPct >= 0.0
    ensures amount <= 0 ==>
              ManagedFeeBreakdown(amount, allInPct, cardPct, ivaPct) == FeeBreakdown(FREE, None, 0, 0, 0, 0)
    ensures amount > 0 ==>
              var b, iva := ManagedFeeBreakdown(amount, allInPct, cardPct, ivaPct), ivaPct / 100.0;
              && b.feeMode == MANAGED && b.platformFeeRate == Some(allInPct)
              && -(1.0 + iva) / 2.0 <= b.platformFeeVat as real - iva * b.platformFeeNet as real <= (1.0 + iva) / 2.0
              && -0.5 < b.gatewayFeeExpected as real - amount as real * cardPct / 100.0 <= 0.5
              && -0.5 < (amount - b.producerNet) as real - amount as real * allInPct / 100.0 <= 0.5
  {
    if amount > 0 {
      VatBound(amount, allInPct, cardPct, ivaPct);
      RoundBounds(Percent(amount, cardPct));
      RoundBounds(Percent(amount, allInPct));
    }
  }

  /** The fields of a sale by own methods: the rate is all-in less card, never negative; without a rate or an amount the
      producer gets it all; the gateway is the producer's own affair. */
  lemma OwnMethodFields(amount: int, allInPct: real, cardPct: real, ivaPct: real, mode: FeeMode)
    requires ivaPct >= 0.0
    ensures var b, iva := OwnMethodBreakdown(amount, allInPct, cardPct, ivaPct, mode), ivaPct / 100.0;
            var rate := if allInPct > cardPct then allInPct - cardPct else 0.0;
            && b.feeMode == mode && b.platformFeeRate == Some(rate) && b.gatewayFeeExpected == 0
            && -(1.0 + iva) / 2.0 <= b.platformFeeVat as real - iva * b.platformFeeNet as real <= (1.0 + iva) / 2.0
            && (amount <= 0 || rate == 0.0 ==>
                  b.platformFeeNet == 0 && b.platformFeeVat == 0 && b.producerNet == amount)
            && (amount > 0 ==> -0.5 < (amount - b.producerNet) as real - amount as real * rate / 100.0 <= 0.5)
  {
    var rate := OwnMethodRate(allInPct, cardPct);
    VatBound(amount, rate, 0.0, ivaPct);
    RoundBounds(Percent(amount, rate));
    if rate == 0.0 { assert Percent(amount, rate) == 0.0; }
  }

  /** The fields of an academy's order: no fee, all to the academy, and the card's share as the gateway's cost. */
  lemma AcademyFields(amount: int, cardPct: real)
    ensures var b := AcademyFeeBreakdown(amount, cardPct);
            && b.feeMode == ACADEMY && b.platformFeeRate == None && b.platformFeeNet == 0 && b.platformFeeVat == 0
            && b.producerNet == amount && (amount <= 0 ==> b.gatewayFeeExpected == 0)
            && (amount > 0 ==> -0.5 < b.gatewayFeeExpected as real - amount as real * cardPct / 100.0 <= 0.5)
  {
    RoundBounds(Percent(amount, cardPct));
  }

  /** What the platform keeps of a managed order differs by at most a peso from what it takes of the same sale by own
      methods. */
  lemma ManagedAndOwnAgree(amount: int, allInPct: real, cardPct: real, ivaPct: real, mode: FeeMode)
    requires amount > 0 && ivaPct != -100.0 && allInPct >= cardPct
    ensures var m, o := ManagedFeeBreakdown(amount, allInPct, cardPct, ivaPct),
        OwnMethodBreakdown(amount, allInPct, cardPct, ivaPct, mode);
            -1 <= (m.platformFeeNet + m.platformFeeVat) - (amount - o.producerNet) <= 1
  {
    var x, y := Percent(amount, allInPct), Percent(amount, cardPct);
    assert Percent(amount, allInPct - cardPct) == x - y by {
      assert amount as real * (allInPct - cardPct) == amount as real * allInPct - amount as real * cardPct;
    }
    RoundDifference(x, y);
    PercentMonotone(amount, cardPct, allInPct);
    RoundMonotone(y, x);
  }

  function Sum(amounts: seq<int>): int {
    if amounts == [] then 0 else amounts[0] + Sum(amounts[1..])
  }

  function Deductions(amounts: seq<int>, pct: real): int {
    if amounts == [] then 0 else Round(Percent(amounts[0], pct)) + Deductions(amounts[1..], pct)
  }

  /** Rounding order by order drifts by at most half a peso per order from the rate on the total. */
  lemma {:induction false} DeductionsDrift(amounts: seq<int>, pct: real)
    ensures -(|amounts| as real) / 2.0
              <= Deductions(amounts, pct) as real - Percent(Sum(amounts), pct) <= |amounts| as real / 2.0
  {
    if amounts != [] {
      DeductionsDrift(amounts[1..], pct);
      RoundBounds(Percent(amounts[0], pct));
      assert Percent(Sum(amounts), pct) == Percent(amounts[0], pct) + Percent(Sum(amounts[1..]), pct) by {
        assert Sum(amounts) as real * pct == amounts[0] as real * pct + Sum(amounts[1..]) as real * pct;
      }
    }
  }
}
