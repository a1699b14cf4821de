/** Fuel arithmetic of `day1.rs`: the fuel a mass needs, and the complete
    requirement that also fuels the fuel.  Rust's `/` on signed integers
    truncates toward zero, which is written out here because Dafny's `/` is
    Euclidean. */
module Fuel {

  /** Rust's signed `/`: the quotient truncated toward zero. */
  function TruncDiv(a: int, b: int): int
    requires b > 0
  {
    if a >= 0 then a / b else -((-a) / b)
  }

  /** `mass / 3 - 2` with truncating division, characterised without
      division: 3 * (f + 2) is the multiple of 3 nearest to `mass` on the side
      of zero. */
  function FuelRequirement(mass: int): (f: int)
    ensures mass >= 0 ==> 3 * (f + 2) <= mass < 3 * (f + 2) + 3
    ensures mass < 0 ==> 3 * (f + 2) - 3 < mass <= 3 * (f + 2)
  {
    TruncDiv(mass, 3) - 2
  }

  lemma FuelRequirementExamples()
    ensures FuelRequirement(12) == 2
    ensures FuelRequirement(14) == 2
    ensures FuelRequirement(1969) == 654
    ensures FuelRequirement(100756) == 33583
  {
  }

  /** More mass never needs less fuel, for negative masses too. */
  lemma FuelMonotone(a: int, b: int)
    requires a <= b
    ensures FuelRequirement(a) <= FuelRequirement(b)
  {
  }

  /** For a positive amount the fuel it needs is strictly smaller, so adding
      fuel for fuel terminates; a non-positive amount needs a non-positive
      amount of fuel. */
  lemma FuelShrinks(x: int)
    ensures x > 0 ==> FuelRequirement(x) < x
    ensures x <= 0 ==> FuelRequirement(x) <= 0
  {
  }

  /** The fuel-for-fuel terms that follow `fuel`: each next term is the fuel
      the previous one needs, added while it stays positive. */
  function ExtraFuel(fuel: int): (e: int)
    ensures e >= 0
    ensures FuelRequirement(fuel) > 0 ==> e >= FuelRequirement(fuel)
    decreases if fuel > 0 then fuel else 0
  {
    var next := FuelRequirement(fuel);
    if next <= 0 then 0 else next + ExtraFuel(next)
  }

  /** The complete requirement as the source's loop computes it.  The first
      term is always counted, even when it is zero or negative; later terms
      only while positive. */
  method CompleteFuelRequirements(mass: int) returns (total: int)
    ensures total == FuelRequirement(mass) + ExtraFuel(FuelRequirement(mass))
    ensures total >= FuelRequirement(mass)
  {
    total := FuelRequirement(mass);
    var extra := total;
    while true
      invariant total + ExtraFuel(extra) == FuelRequirement(mass) + ExtraFuel(FuelRequirement(mass))
      decreases if extra > 0 then extra else 0
    {
      var next := FuelRequirement(extra);
      if next <= 0 {
        break;
      }
      extra := next;
      total := total + extra;
    }
  }

  lemma CompleteFuelExample1969()
    ensures FuelRequirement(1969) + ExtraFuel(FuelRequirement(1969)) == 966
  {
    assert FuelRequirement(21) == 5;
    assert ExtraFuel(5) == 0;
    assert FuelRequirement(70) == 21;
    assert ExtraFuel(21) == 5;
    assert FuelRequirement(216) == 70;
    assert ExtraFuel(70) == 26;
    assert FuelRequirement(654) == 216;
    assert ExtraFuel(216) == 96;
    assert FuelRequirement(1969) == 654;
    assert ExtraFuel(654) == 312;
  }

  lemma CompleteFuelExample100756()
    ensures FuelRequirement(100756) + ExtraFuel(FuelRequirement(100756)) == 50346
  {
    assert FuelRequirement(12) == 2;
    assert ExtraFuel(2) == 0;
    assert FuelRequirement(43) == 12;
    assert ExtraFuel(12) == 2;
    assert FuelRequirement(135) == 43;
    assert ExtraFuel(43) == 14;
    assert FuelRequirement(411) == 135;
    assert ExtraFuel(135) == 57;
    assert FuelRequirement(1240) == 411;
    assert ExtraFuel(411) == 192;
    assert FuelRequirement(3728) == 1240;
    assert ExtraFuel(1240) == 603;
    assert FuelRequirement(11192) == 3728;
    assert ExtraFuel(3728) == 1843;
    assert FuelRequirement(33583) == 11192;
    assert ExtraFuel(11192) == 5571;
    assert FuelRequirement(100756) == 33583;
    assert ExtraFuel(33583) == 16763;
  }
}
