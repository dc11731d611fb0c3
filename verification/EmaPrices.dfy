/**
 Exponential moving averages of pool prices, in integers scaled by `NAD`.
 */
module EmaPrices {
  import opened TaylorExp

  const NAD: nat := 1_000_000_000
  const TAYLOR_TERMS: nat := 5
  const NATURAL_LOG_OF_TWO_NAD: nat := 693_147_180
  const DEFAULT_HALF_LIFE: nat := 600

  // ----- One update -----

  /** The time constant, from the half-life. */
  function ExpTime(halfLife: nat): nat {
    Quotient(halfLife * NAD, NATURAL_LOG_OF_TWO_NAD)
  }

  lemma {:induction false} ExpTimePositive(halfLife: nat)
    requires 0 < halfLife
    ensures 0 < ExpTime(halfLife)
    ensures ExpTime(halfLife) * NATURAL_LOG_OF_TWO_NAD <= halfLife * NAD
  {
  }

  /** The weight left to the old average after `dt` seconds. */
  function Alpha(dt: nat, halfLife: nat): nat
    requires 0 < halfLife
  {
    ExpTimePositive(halfLife);
    Exp(0 - Quotient(dt * NAD, ExpTime(halfLife)), NAD, TAYLOR_TERMS)
  }

  /** A floored weighted average of two prices. */
  function Blend(last: nat, input: nat, alpha: nat): nat
    requires alpha <= NAD
  {
    MulMono(0, input, 0, NAD - alpha);
    MulMono(0, last, 0, alpha);
    Quotient(input * (NAD - alpha) + last * alpha, NAD)
  }

  lemma {:induction false} AlphaAtMostOne(dt: nat, halfLife: nat)
    requires 0 < halfLife
    ensures Alpha(dt, halfLife) <= NAD
  {
    ExpTimePositive(halfLife);
    ExpMono(0 - Quotient(dt * NAD, ExpTime(halfLife)), 0, NAD, TAYLOR_TERMS);
  }

  function ComputeEma(lastEma: nat, lastUpdate: int, input: nat, halfLife: int, currentTime: int): nat {
    var dt := currentTime - lastUpdate;
    if dt > 0 && halfLife > 0 then
      AlphaAtMostOne(dt, halfLife);
      Blend(lastEma, input, Alpha(dt, halfLife))
    else lastEma
  }

  lemma {:induction false} Weighted(a: nat, b: nat, c: nat)
    requires c <= NAD
    ensures a * (NAD - c) + b * c == a * NAD + (b - a) * c == b * NAD - (b - a) * (NAD - c)
  {
    assert a * (NAD - c) == a * NAD - a * c;
    assert (b - a) * c == b * c - a * c;
    assert (b - a) * (NAD - c) == b * NAD - b * c - a * NAD + a * c;
  }

  /** The new average lies between the old one and the input, so it never moves away from its input. */
  lemma {:induction false} BlendBetween(last: nat, input: nat, alpha: nat)
    requires alpha <= NAD
    ensures last <= input ==> last <= Blend(last, input, alpha) <= input
    ensures input <= last ==> input <= Blend(last, input, alpha) <= last
    ensures last <= input ==> input - Blend(last, input, alpha) <= input - last
    ensures input <= last ==> Blend(last, input, alpha) - input <= last - input
  {
    var total := input * (NAD - alpha) + last * alpha;
    Weighted(input, last, alpha);
    DivExact(input, NAD);
    DivExact(last, NAD);
    if last <= input {
      MulMono(0, input - last, 0, NAD - alpha);
      MulMono(0, input - last, 0, alpha);
      assert (last - input) * alpha == -((input - last) * alpha);
      assert (last - input) * (NAD - alpha) == -((input - last) * (NAD - alpha));
      DivMono(total, input * NAD, NAD);
      DivMono(last * NAD, total, NAD);
    } else {
      MulMono(0, last - input, 0, NAD - alpha);
      MulMono(0, last - input, 0, alpha);
      DivMono(total, last * NAD, NAD);
      DivMono(input * NAD, total, NAD);
    }
  }

  function Distance(a: int, b: int): nat {
    if a < b then b - a else a - b
  }

  /** What is left of the distance is the `alpha` part of it, up to one unit. */
  lemma {:induction false} BlendCloses(last: nat, input: nat, alpha: nat)
    requires alpha <= NAD
    ensures Distance(Blend(last, input, alpha), input) * NAD <= Distance(last, input) * alpha + NAD
  {
    var total := input * (NAD - alpha) + last * alpha;
    var b := Blend(last, input, alpha);
    Weighted(input, last, alpha);
    BlendBetween(last, input, alpha);
    if last <= input {
      assert (last - input) * alpha == -((input - last) * alpha);
      assert (input - b) * NAD == input * NAD - b * NAD;
    } else {
      assert (b - input) * NAD == b * NAD - input * NAD;
    }
  }

  /** And no less than that part is left, up to one unit: the past is weighed in. */
  lemma {:induction false} BlendKeeps(last: nat, input: nat, alpha: nat)
    requires alpha <= NAD
    ensures Distance(last, input) * alpha <= Distance(Blend(last, input, alpha), input) * NAD + NAD
  {
    var b := Blend(last, input, alpha);
    Weighted(input, last, alpha);
    BlendBetween(last, input, alpha);
    if last <= input {
      assert (last - input) * alpha == -((input - last) * alpha);
      assert (input - b) * NAD == input * NAD - b * NAD;
    } else {
      assert (b - input) * NAD == b * NAD - input * NAD;
    }
  }

  /** Of the distance between old average and input, the weight's part is left after an update, up to one unit. */
  lemma {:induction false} EmaKeepsWeight(lastEma: nat, lastUpdate: int, input: nat, halfLife: int, currentTime: int)
    requires lastUpdate < currentTime && 0 < halfLife
    ensures var ema := ComputeEma(lastEma, lastUpdate, input, halfLife, currentTime);
            var part := Distance(lastEma, input) * Alpha(currentTime - lastUpdate, halfLife);
            part - NAD <= Distance(ema, input) * NAD <= part + NAD
  {
    var alpha := Alpha(currentTime - lastUpdate, halfLife);
    AlphaAtMostOne(currentTime - lastUpdate, halfLife);
    hide Alpha, Blend;
    BlendCloses(lastEma, input, alpha);
    BlendKeeps(lastEma, input, alpha);
  }

  /** Without time passing, or without a half-life, the average stays. */
  lemma {:induction false} EmaStays(lastEma: nat, lastUpdate: int, input: nat, halfLife: int, currentTime: int)
    requires currentTime <= lastUpdate || halfLife <= 0
    ensures ComputeEma(lastEma, lastUpdate, input, halfLife, currentTime) == lastEma
  {
  }

  // ----- Half-life -----

  lemma {:induction false} HalfLifeExponent(dt: nat, halfLife: nat)
    requires 0 < halfLife <= dt
    ensures 0 < ExpTime(halfLife) && NATURAL_LOG_OF_TWO_NAD <= Quotient(dt * NAD, ExpTime(halfLife))
  {
    ExpTimePositive(halfLife);
    MulMono(halfLife, dt, NAD, NAD);
    DivMono(NATURAL_LOG_OF_TWO_NAD * ExpTime(halfLife), dt * NAD, ExpTime(halfLife));
    DivExact(NATURAL_LOG_OF_TWO_NAD, ExpTime(halfLife));
  }

  // ----- The weight at three exponents -----

  /** e^(-ln 2), as computed. */
  lemma {:induction false} ExpAtLogTwo()
    ensures Exp(0 - 693_147_180, NAD, TAYLOR_TERMS) == 500_000_008
  {
    var r, sum := 69_314_718, 1_071_773_461;
    assert Term(r, NAD, 1) == 69_314_718 &&
           Term(r, NAD, 2) == 2_402_265 &&
           Term(r, NAD, 3) == 55_504 &&
           Term(r, NAD, 4) == 961 &&
           Term(r, NAD, 5) == 13;
    assert TermSum(r, NAD, 1) == 1_069_314_718 &&
           TermSum(r, NAD, 2) == 1_071_716_983 &&
           TermSum(r, NAD, 3) == 1_071_772_487 &&
           TermSum(r, NAD, 4) == 1_071_773_448 &&
           TermSum(r, NAD, 5) == 1_071_773_461;
    assert Power(sum, NAD, 1) == 1_071_773_461 &&
           Power(sum, NAD, 2) == 1_148_698_351 &&
           Power(sum, NAD, 3) == 1_231_144_407 &&
           Power(sum, NAD, 4) == 1_319_507_902 &&
           Power(sum, NAD, 5) == 1_414_213_550 &&
           Power(sum, NAD, 6) == 1_515_716_551 &&
           Power(sum, NAD, 7) == 1_624_504_773 &&
           Power(sum, NAD, 8) == 1_741_101_102 &&
           Power(sum, NAD, 9) == 1_866_065_954 &&
           Power(sum, NAD, 10) == 1_999_999_965;
    assert Magnitude(693_147_180, NAD, TAYLOR_TERMS) == 1_999_999_965;
  }

  /** e^(-600/865), the weight at the default half-life, as computed. */
  lemma {:induction false} ExpAtDefaultHalfLife()
    ensures Exp(0 - 693_641_618, NAD, TAYLOR_TERMS) == 499_752_859
  {
    var r, sum := 69_364_161, 1_071_826_453;
    assert Term(r, NAD, 1) == 69_364_161 &&
           Term(r, NAD, 2) == 2_405_693 &&
           Term(r, NAD, 3) == 55_622 &&
           Term(r, NAD, 4) == 964 &&
           Term(r, NAD, 5) == 13;
    assert TermSum(r, NAD, 1) == 1_069_364_161 &&
           TermSum(r, NAD, 2) == 1_071_769_854 &&
           TermSum(r, NAD, 3) == 1_071_825_476 &&
           TermSum(r, NAD, 4) == 1_071_826_440 &&
           TermSum(r, NAD, 5) == 1_071_826_453;
    assert Power(sum, NAD, 1) == 1_071_826_453 &&
           Power(sum, NAD, 2) == 1_148_811_945 &&
           Power(sum, NAD, 3) == 1_231_327_032 &&
           Power(sum, NAD, 4) == 1_319_768_885 &&
           Power(sum, NAD, 5) == 1_414_563_202 &&
           Power(sum, NAD, 6) == 1_516_166_259 &&
           Power(sum, NAD, 7) == 1_625_067_103 &&
           Power(sum, NAD, 8) == 1_741_789_908 &&
           Power(sum, NAD, 9) == 1_866_896_498 &&
           Power(sum, NAD, 10) == 2_000_989_051;
    assert Magnitude(693_641_618, NAD, TAYLOR_TERMS) == 2_000_989_051;
  }

  /** After 18102 seconds at the default half-life, the weight is 0. */
  lemma {:induction false} ExpAtCutoff()
    ensures Exp(0 - 20_927_167_630, NAD, TAYLOR_TERMS) == 0
  {
    var r, sum := 2_092_716_763, 7_943_579_418;
    assert Term(r, NAD, 1) == 2_092_716_763 &&
           Term(r, NAD, 2) == 2_189_731_725 &&
           Term(r, NAD, 3) == 1_527_496_095 &&
           Term(r, NAD, 4) == 799_154_170 &&
           Term(r, NAD, 5) == 334_480_665;
    assert TermSum(r, NAD, 1) == 3_092_716_763 &&
           TermSum(r, NAD, 2) == 5_282_448_488 &&
           TermSum(r, NAD, 3) == 6_809_944_583 &&
           TermSum(r, NAD, 4) == 7_609_098_753 &&
           TermSum(r, NAD, 5) == 7_943_579_418;
    assert Power(sum, NAD, 1) == 7_943_579_418 &&
           Power(sum, NAD, 2) == 63_100_453_970 &&
           Power(sum, NAD, 3) == 501_243_467_422 &&
           Power(sum, NAD, 4) == 3_981_667_291_220 &&
           Power(sum, NAD, 5) == 31_628_690_343_859 &&
           Power(sum, NAD, 6) == 251_245_013_633_773 &&
           Power(sum, NAD, 7) == 1_995_784_719_176_368 &&
           Power(sum, NAD, 8) == 15_853_674_418_008_306 &&
           Power(sum, NAD, 9) == 125_934_921_806_563_908 &&
           Power(sum, NAD, 10) == 1_000_374_052_870_060_436;
    assert Magnitude(20_927_167_630, NAD, TAYLOR_TERMS) == 1_000_374_052_870_060_436;
  }

  /** One second before, it is not. */
  lemma {:induction false} ExpBeforeCutoff()
    ensures Exp(0 - 20_926_011_560, NAD, TAYLOR_TERMS) == 1
  {
    var r, sum := 2_092_601_156, 7_942_699_800;
    assert Term(r, NAD, 1) == 2_092_601_156 &&
           Term(r, NAD, 2) == 2_189_489_799 &&
           Term(r, NAD, 3) == 1_527_242_961 &&
           Term(r, NAD, 4) == 798_977_596 &&
           Term(r, NAD, 5) == 334_388_288;
    assert TermSum(r, NAD, 1) == 3_092_601_156 &&
           TermSum(r, NAD, 2) == 5_282_090_955 &&
           TermSum(r, NAD, 3) == 6_809_333_916 &&
           TermSum(r, NAD, 4) == 7_608_311_512 &&
           TermSum(r, NAD, 5) == 7_942_699_800;
    assert Power(sum, NAD, 1) == 7_942_699_800 &&
           Power(sum, NAD, 2) == 63_086_480_112 &&
           Power(sum, NAD, 3) == 501_076_972_968 &&
           Power(sum, NAD, 4) == 3_979_903_972_977 &&
           Power(sum, NAD, 5) == 31_611_182_490_183 &&
           Power(sum, NAD, 6) == 251_078_132_842_540 &&
           Power(sum, NAD, 7) == 1_994_238_235_512_815 &&
           Power(sum, NAD, 8) == 15_839_635_634_359_988 &&
           Power(sum, NAD, 9) == 125_809_470_785_103_949 &&
           Power(sum, NAD, 10) == 999_266_858_442_950_978;
    assert Magnitude(20_926_011_560, NAD, TAYLOR_TERMS) == 999_266_858_442_950_978;
  }

  /** After a half-life, the weight of the old average is one half up to 8 billionths, and never more. */
  lemma {:induction false} HalfLifeWeight(dt: nat, halfLife: nat)
    requires 0 < halfLife <= dt
    ensures 0 < ExpTime(halfLife) && Alpha(dt, halfLife) <= NAD / 2 + 8
  {
    HalfLifeExponent(dt, halfLife);
    ExpMono(0 - Quotient(dt * NAD, ExpTime(halfLife)), 0 - NATURAL_LOG_OF_TWO_NAD, NAD, TAYLOR_TERMS);
    ExpAtLogTwo();
  }

  /** So after a half-life at most half the distance to the input is left, up to 8 billionths of it and one unit. */
  lemma {:induction false} HalfLifeClosesHalf(
      lastEma: nat, lastUpdate: int, input: nat, halfLife: int, currentTime: int)
    requires 0 < halfLife <= currentTime - lastUpdate
    ensures Distance(ComputeEma(lastEma, lastUpdate, input, halfLife, currentTime), input) * NAD <=
            Distance(lastEma, input) * (NAD / 2 + 8) + NAD
  {
    var alpha := Alpha(currentTime - lastUpdate, halfLife);
    AlphaAtMostOne(currentTime - lastUpdate, halfLife);
    HalfLifeWeight(currentTime - lastUpdate, halfLife);
    BlendCloses(lastEma, input, alpha);
    MulMono(Distance(lastEma, input), Distance(lastEma, input), alpha, NAD / 2 + 8);
  }

  /** An update never leaves the span of old average and input, whatever the clock says. */
  lemma {:induction false} EmaBetween(lastEma: nat, lastUpdate: int, input: nat, halfLife: int, currentTime: int)
    ensures var ema := ComputeEma(lastEma, lastUpdate, input, halfLife, currentTime);
            (lastEma <= ema <= input || input <= ema <= lastEma) &&
            Distance(ema, input) <= Distance(lastEma, input)
  {
    if 0 < halfLife && lastUpdate < currentTime {
      AlphaAtMostOne(currentTime - lastUpdate, halfLife);
      BlendBetween(lastEma, input, Alpha(currentTime - lastUpdate, halfLife));
    }
  }

  // ----- Forgetting -----

  /** The age from which, at the default half-life, an average is no longer taken into account. */
  const FORGOTTEN_AFTER: nat := 18_102

  lemma {:induction false} WeightVanishes(dt: nat)
    ensures Alpha(dt, DEFAULT_HALF_LIFE) == 0 <==> FORGOTTEN_AFTER <= dt
  {
    assert ExpTime(DEFAULT_HALF_LIFE) == 865;
    ExpAtCutoff();
    ExpBeforeCutoff();
    if FORGOTTEN_AFTER <= dt {
      DivMono(FORGOTTEN_AFTER * NAD, dt * NAD, 865);
      ExpMono(0 - Quotient(dt * NAD, 865), 0 - Quotient(FORGOTTEN_AFTER * NAD, 865), NAD, TAYLOR_TERMS);
    } else {
      DivMono(dt * NAD, (FORGOTTEN_AFTER - 1) * NAD, 865);
      ExpMono(0 - Quotient((FORGOTTEN_AFTER - 1) * NAD, 865), 0 - Quotient(dt * NAD, 865), NAD, TAYLOR_TERMS);
    }
  }

  /** Up to the default half-life, all but half of the weight is left; up to the age above, some of it. */
  lemma {:induction false} WeightLeft(dt: nat)
    ensures dt <= DEFAULT_HALF_LIFE ==> 499_752_859 <= Alpha(dt, DEFAULT_HALF_LIFE)
    ensures dt < FORGOTTEN_AFTER ==> 1 <= Alpha(dt, DEFAULT_HALF_LIFE)
  {
    WeightVanishes(dt);
    if dt <= DEFAULT_HALF_LIFE {
      assert ExpTime(DEFAULT_HALF_LIFE) == 865;
      ExpAtDefaultHalfLife();
      DivMono(dt * NAD, DEFAULT_HALF_LIFE * NAD, 865);
      ExpMono(0 - Quotient(DEFAULT_HALF_LIFE * NAD, 865), 0 - Quotient(dt * NAD, 865), NAD, TAYLOR_TERMS);
    }
  }

  lemma {:induction false} ZeroWeight(last: nat, input: nat)
    ensures Blend(last, input, 0) == input
  {
    DivExact(input, NAD);
  }

  lemma {:induction false} SomeWeight(alpha: nat)
    requires 0 < alpha <= NAD
    ensures Blend(2 * NAD, 0, alpha) != 0
  {
    QuotientIs(2 * NAD * alpha, NAD, 2 * alpha);
  }

  /** The input is taken over unchanged, whatever the average was, exactly from that age on. */
  lemma {:induction false} ForgetsExactlyWhenOld(lastUpdate: int, currentTime: int)
    ensures (forall last: nat, input: nat ::
               ComputeEma(last, lastUpdate, input, DEFAULT_HALF_LIFE, currentTime) == input)
            <==> FORGOTTEN_AFTER <= currentTime - lastUpdate
  {
    var dt := currentTime - lastUpdate;
    if FORGOTTEN_AFTER <= dt {
      WeightVanishes(dt);
      forall last: nat, input: nat
        ensures ComputeEma(last, lastUpdate, input, DEFAULT_HALF_LIFE, currentTime) == input
      {
        ZeroWeight(last, input);
      }
    } else if 0 < dt {
      WeightVanishes(dt);
      AlphaAtMostOne(dt, DEFAULT_HALF_LIFE);
      SomeWeight(Alpha(dt, DEFAULT_HALF_LIFE));
      assert ComputeEma(2 * NAD, lastUpdate, 0, DEFAULT_HALF_LIFE, currentTime) != 0;
    } else {
      assert ComputeEma(1, lastUpdate, 0, DEFAULT_HALF_LIFE, currentTime) != 0;
    }
  }
}
