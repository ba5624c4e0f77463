// The stateless half of a unit: the ohm/byte-code conversions, the
// self-heal eligibility test and the two random target generators.

module UnitValues {
  import opened ByteExt

  /** The nominal resistances a resistor break picks from, in ohms. */
  const ResistorNominals: seq<int> := [1000, 2000, 5100, 6800, 12000, 18000, 15000, 51000]

  /** Two seconds, in 100 ns clock ticks. */
  const DelayUntilReset: int := 20_000_000

  /** Ohms measured for a byte code: 10000*x/(256-x), truncated; the divisor is
      at least 1 for every byte, so every code has a value. */
  function GetOms(x: byte): nat
  {
    CodeToOms(x as int)
  }

  /** GetOms on the code as a number. */
  function CodeToOms(c: nat): nat
    requires c < 256
  {
    DivNonNegative(10000 * c, 256 - c);
    10000 * c / (256 - c)
  }

  /** A quotient of natural numbers is a natural number. */
  lemma DivNonNegative(a: nat, d: nat)
    requires d > 0
    ensures a / d >= 0
  {
  }

  /** GetOms is the largest whole number of ohms not above the exact value
      10000*c/(256-c). */
  lemma CodeToOmsBounds(c: nat)
    requires c < 256
    ensures var oms := CodeToOms(c);
      oms * (256 - c) <= 10000 * c < (oms + 1) * (256 - c)
  {
  }

  /** The byte code sent for a target resistance: (256*oms)/(oms+10000),
      truncated. The quotient is below 256, so the byte cast never wraps. */
  function RequiredResistorByte(oms: nat): (b: byte)
    ensures b as int == OmsToCode(oms)
  {
    var c := OmsToCode(oms);
    ByteOfInt(c);
    c as byte
  }

  /** RequiredResistorByte as a number: (256*oms)/(oms+10000), truncated,
      always a byte value. */
  function OmsToCode(oms: nat): (c: nat)
    ensures c < 256
  {
    DivBelow(256 * oms, oms + 10000, 256);
    (256 * oms) / (oms + 10000)
  }

  /** The code for a target is the largest code whose exact resistance
      10000*c/(256-c) does not exceed the target. */
  lemma OmsToCodeBounds(oms: nat)
    ensures var c := OmsToCode(oms);
      && 10000 * c <= (256 - c) * oms
      && (c < 255 ==> 10000 * (c + 1) > (255 - c) * oms)
  {
    var q := OmsToCode(oms);
    assert q * (oms + 10000) <= 256 * oms < (q + 1) * (oms + 10000);
  }

  lemma DivBelow(a: nat, d: nat, bound: nat)
    requires d > 0 && a < bound * d
    ensures a / d < bound
  {
    var q := a / d;
    assert q * d <= a;
    if q >= bound {
      MulMono(bound, q, d);
    }
  }

  /** Multiplying by a natural number keeps the order. */
  lemma MulMono(p: int, q: int, m: nat)
    requires p <= q
    ensures p * m <= q * m
  {
  }

  /** A higher code always reads as more ohms, so GetOms is injective. */
  lemma GetOmsStrictlyIncreasing(x: byte, y: byte)
    requires x < y
    ensures GetOms(x) < GetOms(y)
  {
    CodeToOmsStrictlyIncreasing(x as int, y as int);
  }

  lemma {:induction false} CodeToOmsStrictlyIncreasing(a: nat, b: nat)
    requires a < b < 256
    ensures CodeToOms(a) < CodeToOms(b)
    decreases b - a
  {
    CodeToOmsStep(a);
    if a + 1 < b {
      CodeToOmsStrictlyIncreasing(a + 1, b);
    }
  }

  /** Consecutive codes read as strictly increasing ohms. */
  lemma CodeToOmsStep(a: nat)
    requires a < 255
    ensures CodeToOms(a) < CodeToOms(a + 1)
  {
    CodeToOmsBounds(a);
    CodeToOmsBounds(a + 1);
    StepBound(a, CodeToOms(a), CodeToOms(a + 1));
  }

  // The three arithmetic cores below take the truncated quotients as plain
  // numbers, characterised only by the inequalities that define them.

  lemma StepBound(a: int, ga: int, gn: int)
    requires 0 <= a < 255 && ga >= 0 && gn >= 0
    requires ga * (256 - a) <= 10000 * a
    requires 10000 * (a + 1) < (gn + 1) * (255 - a)
    ensures ga < gn
  {
    var d := 255 - a;
    // (ga+1)*d = ga*(d+1) - ga + d <= 10000*a + d <= 10000*(a+1)
    assert (ga + 1) * d == ga * (d + 1) - ga + d;
    if gn < ga + 1 {
      MulMono(gn + 1, ga + 1, d);
    }
  }

  /** Converting a target to its code and reading the code back never gives
      more ohms than the target: both truncations round down. */
  lemma OhmsThroughByte(oms: nat)
    ensures GetOms(RequiredResistorByte(oms)) <= oms
  {
    var c := OmsToCode(oms);
    CodeToOmsBounds(c);
    OmsToCodeBounds(oms);
    RoundDownBound(c, CodeToOms(c), oms);
  }

  lemma RoundDownBound(c: int, g: int, oms: int)
    requires 0 <= c < 256 && g >= 0 && oms >= 0
    requires g * (256 - c) <= 10000 * c
    requires 10000 * c <= (256 - c) * oms
    ensures g <= oms
  {
  }

  /** Reading a code as ohms and converting back loses at most one step. */
  lemma ByteThroughOhms(x: byte)
    ensures x as int - 1 <= RequiredResistorByte(GetOms(x)) as int <= x as int
  {
    CodeThroughOhms(x as int);
  }

  lemma CodeThroughOhms(a: nat)
    requires a < 256
    ensures a - 1 <= OmsToCode(CodeToOms(a)) <= a
  {
    var g := CodeToOms(a);
    var r := OmsToCode(g);
    CodeToOmsBounds(a);
    OmsToCodeBounds(g);
    CodeNotAbove(a, g, r);
    CodeNotFarBelow(a, g, r);
  }

  lemma CodeNotAbove(a: int, g: int, r: int)
    requires 0 <= a < 256 && 0 <= r < 256 && g >= 0
    requires g * (256 - a) <= 10000 * a
    requires 10000 * r <= (256 - r) * g
    ensures r <= a
  {
    // with t = r - a: 10000*(a+t) <= (256-a)*g - t*g <= 10000*a - t*g, so t <= 0
    var t := r - a;
    assert (256 - r) * g == (256 - a) * g - t * g;
    assert t > 0 ==> t * g >= 0;
  }

  lemma CodeNotFarBelow(a: int, g: int, r: int)
    requires 0 <= a < 256 && 0 <= r < 256 && g >= 0
    requires 10000 * a < (g + 1) * (256 - a)
    requires r < 255 ==> 10000 * (r + 1) > (255 - r) * g
    ensures a - 1 <= r
  {
    // with t = a-1-r: 10000*(a-t) > (256-a)*g + t*g > 10000*a - (256-a) + t*g, so t <= 0
    var t := a - 1 - r;
    assert (255 - r) * g == (256 - a) * g + t * g;
    assert (g + 1) * (256 - a) == g * (256 - a) + (256 - a);
    assert t > 0 ==> t * g >= 0;
  }

  /** Self-heal eligibility of a Set echo: the measured resistance differs from
      the target, is at or above the threshold, and is not the reading of the
      top code 0xFF. */
  predicate ShouldBeRestoredForMetro(measured: byte, requiredOms: int, threshold: int)
  {
    var resistorValueInOms := GetOms(measured);
    var brokenByResistor := resistorValueInOms != requiredOms;
    var metroCanBeRestored := resistorValueInOms >= threshold;
    var metroNotDisconnected := resistorValueInOms != GetOms(0xFF);
    brokenByResistor && metroCanBeRestored && metroNotDisconnected
  }

  /** Comparing readings in ohms against the top code's reading is the same as
      comparing the codes: only a disconnected line (0xFF) is excluded. */
  lemma RestoreEligibility(measured: byte, requiredOms: int, threshold: int)
    ensures ShouldBeRestoredForMetro(measured, requiredOms, threshold)
      <==> measured != 0xFF && GetOms(measured) != requiredOms && GetOms(measured) >= threshold
  {
    if measured != 0xFF {
      GetOmsStrictlyIncreasing(measured, 0xFF);
    }
  }

  /** A random jumper pattern: a draw from 0..254 kept only when 3 to 5 bits are set. */
  method GenerateJumperValue() returns (jvalue: byte)
    ensures 3 <= PopCount(jvalue) <= 5
    ensures jvalue != 255
  {
    assert PopCount(7) == 3;
    jvalue :| jvalue != 255 && 3 <= PopCount(jvalue) <= 5;
  }

  /** A random nominal, redrawn until it differs from the current target. */
  method GenerateResistorValue(requiredResistorInOms: int) returns (newResValue: int)
    ensures newResValue in ResistorNominals
    ensures newResValue != requiredResistorInOms
  {
    var pick := if requiredResistorInOms == ResistorNominals[0] then ResistorNominals[1] else ResistorNominals[0];
    assert pick in ResistorNominals && pick != requiredResistorInOms;
    newResValue :| newResValue in ResistorNominals && newResValue != requiredResistorInOms;
  }
}
