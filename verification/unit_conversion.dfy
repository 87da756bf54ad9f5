/** The arithmetic of `sedclient/unitConversion.py`: removing the leftover
    `cm` and `s` atoms of a flux density with the wavelength (`convertTop`,
    `convertBottom`), the conversion to Janskys (`toJansky`), the final
    multiplication by the frequency (`JyConversion`), and the dispatch in
    `convert`. Values are exact reals; the wavelength arrives in microns. */
module UnitConversion {
  import opened Basics
  import opened Text
  import opened Measures
  import opened UnitTokens

  /** The speed of light in cm/s, as the source spells it (2.9979246e10). */
  const C: real := 29979246000.0

  /** `x ** n` for a natural exponent. */
  function Pow(x: Positive, n: nat): Positive {
    if n == 0 then 1.0 else PosMul(x, Pow(x, n - 1)); x * Pow(x, n - 1)
  }

  /** `c / w`: the frequency of light of wavelength `w` centimetres. */
  function PerWave(w: Positive): (f: Positive)
    ensures f * w == C
  {
    PosDiv(C, w);
    C / w
  }

  /** The factor the leftover atoms `L` of a numerator call for: `c / w`
      per `s` and `1 / w` per `cm`, whatever their order. */
  function TopFactor(w: Positive, L: seq<string>): Positive {
    PosDiv(1.0, w);
    PosMul(Pow(PerWave(w), multiset(L)["s"]), Pow(1.0 / w, multiset(L)["cm"]));
    Pow(PerWave(w), multiset(L)["s"]) * Pow(1.0 / w, multiset(L)["cm"])
  }

  /** The factor for a denominator: `w / c` per `s` and `w` per `cm`. */
  function BottomFactor(w: Positive, L: seq<string>): Positive {
    PosDiv(w, C);
    PosMul(Pow(w / C, multiset(L)["s"]), Pow(w, multiset(L)["cm"]));
    Pow(w / C, multiset(L)["s"]) * Pow(w, multiset(L)["cm"])
  }

  /** One pass of `convertTop`'s loop: `cm` divides by `w`, `s` multiplies
      by `c / w`, any other atom leaves the value alone. */
  function TopAtom(v: Uv, w: Positive, u: string): Uv {
    var v1 := if u == "cm" then DivUv(v, w) else v;
    if u == "s" then ScaleUv(v1, PerWave(w)) else v1
  }

  /** One pass of `convertBottom`'s loop: `cm` multiplies by `w`, `s`
      divides by `c / w`. */
  function BottomAtom(v: Uv, w: Positive, u: string): Uv {
    var v1 := if u == "cm" then ScaleUv(v, w) else v;
    if u == "s" then DivUv(v1, PerWave(w)) else v1
  }

  /** `convertTop(val, wave, units)`: pops atoms off the end of `units` and
      applies each. The result is the value scaled by `(c/w)^#s (1/w)^#cm`,
      counted over the whole list. */
  function ConvertTop(v: Uv, w: Positive, L: seq<string>): (r: Uv)
    ensures r == ScaleUv(v, TopFactor(w, L))
    decreases |L|
  {
    if L == [] then
      assert v == ScaleUv(v, 1.0);
      v
    else
      var front := L[..|L| - 1];
      TopStep(v, w, front, L[|L| - 1]);
      assert L == front + [L[|L| - 1]];
      ConvertTop(TopAtom(v, w, L[|L| - 1]), w, front)
  }

  /** `convertBottom(val, wave, units)`: the same walk with the operations
      inverted. The result is the value scaled by `(w/c)^#s w^#cm`. */
  function ConvertBottom(v: Uv, w: Positive, L: seq<string>): (r: Uv)
    ensures r == ScaleUv(v, BottomFactor(w, L))
    decreases |L|
  {
    if L == [] then
      assert v == ScaleUv(v, 1.0);
      v
    else
      var front := L[..|L| - 1];
      BottomStep(v, w, front, L[|L| - 1]);
      assert L == front + [L[|L| - 1]];
      ConvertBottom(BottomAtom(v, w, L[|L| - 1]), w, front)
  }

  /** The factor one atom contributes to a numerator and to a denominator. */
  function TopAtomFactor(w: Positive, u: string): Positive {
    PosDiv(1.0, w);
    if u == "cm" then 1.0 / w else if u == "s" then PerWave(w) else 1.0
  }

  function BottomAtomFactor(w: Positive, u: string): Positive {
    PosDiv(w, C);
    if u == "cm" then w else if u == "s" then w / C else 1.0
  }

  lemma TopAtomIsScale(v: Uv, w: Positive, u: string)
    ensures TopAtom(v, w, u) == ScaleUv(v, TopAtomFactor(w, u))
  {
    if u == "cm" {
      DivIsScale(v, w);
    } else if u != "s" {
      assert v == ScaleUv(v, 1.0);
    }
  }

  lemma BottomAtomIsScale(v: Uv, w: Positive, u: string)
    ensures BottomAtom(v, w, u) == ScaleUv(v, BottomAtomFactor(w, u))
  {
    if u == "s" {
      DivIsScale(v, PerWave(w));
      Reciprocal(w);
    } else if u != "cm" {
      assert v == ScaleUv(v, 1.0);
    }
  }

  lemma PowSucc(x: Positive, n: nat)
    ensures Pow(x, n + 1) == x * Pow(x, n)
  {
  }

  lemma TopFactorAppend(w: Positive, front: seq<string>, u: string)
    ensures TopFactor(w, front + [u]) == TopAtomFactor(w, u) * TopFactor(w, front)
  {
    assert multiset(front + [u]) == multiset(front) + multiset{u};
    var a := Pow(PerWave(w), multiset(front)["s"]);
    var b := Pow(1.0 / w, multiset(front)["cm"]);
    if u == "cm" {
      PowSucc(1.0 / w, multiset(front)["cm"]);
      Rotate(1.0 / w, a, b);
    } else if u == "s" {
      PowSucc(PerWave(w), multiset(front)["s"]);
      Assoc(PerWave(w), a, b);
    }
  }

  lemma BottomFactorAppend(w: Positive, front: seq<string>, u: string)
    ensures BottomFactor(w, front + [u]) == BottomAtomFactor(w, u) * BottomFactor(w, front)
  {
    assert multiset(front + [u]) == multiset(front) + multiset{u};
    var a := Pow(w / C, multiset(front)["s"]);
    var b := Pow(w, multiset(front)["cm"]);
    if u == "cm" {
      PowSucc(w, multiset(front)["cm"]);
      Rotate(w, a, b);
    } else if u == "s" {
      PowSucc(w / C, multiset(front)["s"]);
      Assoc(w / C, a, b);
    }
  }

  lemma TopStep(v: Uv, w: Positive, front: seq<string>, u: string)
    ensures ScaleUv(TopAtom(v, w, u), TopFactor(w, front)) == ScaleUv(v, TopFactor(w, front + [u]))
  {
    TopAtomIsScale(v, w, u);
    ScaleCompose(v, TopAtomFactor(w, u), TopFactor(w, front));
    TopFactorAppend(w, front, u);
  }

  lemma BottomStep(v: Uv, w: Positive, front: seq<string>, u: string)
    ensures ScaleUv(BottomAtom(v, w, u), BottomFactor(w, front)) == ScaleUv(v, BottomFactor(w, front + [u]))
  {
    BottomAtomIsScale(v, w, u);
    ScaleCompose(v, BottomAtomFactor(w, u), BottomFactor(w, front));
    BottomFactorAppend(w, front, u);
  }

  // Field identities, one per lemma so that each is proved in isolation.
  lemma PosMul(a: real, b: real)
    requires a > 0.0 && b > 0.0
    ensures a * b > 0.0
  {
  }

  lemma PosDiv(a: real, b: real)
    requires a > 0.0 && b > 0.0
    ensures a / b > 0.0
  {
  }

  lemma Assoc(k: real, a: real, b: real)
    ensures k * (a * b) == (k * a) * b
  {
  }

  lemma Rotate(k: real, a: real, b: real)
    ensures k * (a * b) == a * (k * b)
  {
  }

  lemma Reciprocal(w: Positive)
    ensures 1.0 / PerWave(w) == w / C
  {
  }

  /** Dividing by `k` is scaling by `1 / k`. */
  lemma DivIsScale(v: Uv, k: Positive)
    ensures 1.0 / k > 0.0
    ensures DivUv(v, k) == ScaleUv(v, 1.0 / k)
  {
    PosDiv(1.0, k);
    assert v.n / k == v.n * (1.0 / k);
    assert v.s / k == v.s * (1.0 / k);
  }

  lemma ScaleCompose(v: Uv, a: Positive, b: Positive)
    ensures a * b > 0.0
    ensures ScaleUv(ScaleUv(v, a), b) == ScaleUv(v, a * b)
  {
    PosMul(a, b);
    assert v.n * a * b == v.n * (a * b);
    assert v.s * a * b == v.s * (a * b);
  }

  /** Powers of mutually inverse numbers are mutually inverse. */
  lemma {:induction false} PowInverse(x: Positive, y: Positive, n: nat)
    requires x * y == 1.0
    ensures Pow(x, n) * Pow(y, n) == 1.0
  {
    if n > 0 {
      PowInverse(x, y, n - 1);
      var p := Pow(x, n - 1);
      var q := Pow(y, n - 1);
      assert Pow(x, n) * Pow(y, n) == (x * p) * (y * q);
      Swap(x, p, y, q);
    }
  }

  lemma Swap(x: real, p: real, y: real, q: real)
    ensures (x * p) * (y * q) == (x * y) * (p * q)
  {
  }

  /** The two factors for the same atoms cancel. */
  lemma FactorsCancel(w: Positive, L: seq<string>)
    ensures TopFactor(w, L) * BottomFactor(w, L) == 1.0
  {
    var ns := multiset(L)["s"];
    var ncm := multiset(L)["cm"];
    assert PerWave(w) * (w / C) == 1.0;
    assert (1.0 / w) * w == 1.0;
    PowInverse(PerWave(w), w / C, ns);
    PowInverse(1.0 / w, w, ncm);
    Swap(Pow(PerWave(w), ns), Pow(1.0 / w, ncm), Pow(w / C, ns), Pow(w, ncm));
  }

  /** `convertBottom` undoes `convertTop` for the same wavelength and atoms. */
  lemma ConvertBottomUndoesTop(v: Uv, w: Positive, L: seq<string>)
    ensures ConvertBottom(ConvertTop(v, w, L), w, L) == v
  {
    FactorsCancel(w, L);
    ScaleCompose(v, TopFactor(w, L), BottomFactor(w, L));
    assert v == ScaleUv(v, 1.0);
  }

  /** Only how many `cm` and `s` atoms there are matters: neither the order
      in which they are popped nor any other atom changes the result. */
  lemma ConvertDependsOnlyOnCounts(v: Uv, w: Positive, L1: seq<string>, L2: seq<string>)
    requires multiset(L1)["cm"] == multiset(L2)["cm"] && multiset(L1)["s"] == multiset(L2)["s"]
    ensures ConvertTop(v, w, L1) == ConvertTop(v, w, L2)
    ensures ConvertBottom(v, w, L1) == ConvertBottom(v, w, L2)
  {
    assert TopFactor(w, L1) == TopFactor(w, L2);
    assert BottomFactor(w, L1) == BottomFactor(w, L2);
  }

  // ---------------------------------------------------------------------
  // toJansky, JyConversion and convert
  // ---------------------------------------------------------------------

  /** The printed decomposition cut into atoms: `str(unit).split()`, each
      piece stripped of `(` and then of `)`. */
  function Atoms(text: string): (ts: seq<string>)
    ensures |ts| == |Words(text)|
    ensures forall k :: 0 <= k < |ts| ==> ts[k] == StripChar(StripChar(Words(text)[k], '('), ')')
  {
    var ws := Words(text);
    seq(|ws|, k requires 0 <= k < |ws| => StripChar(StripChar(ws[k], '('), ')'))
  }

  /** The atoms `toJansky` works on: when the decomposition has a scale
      other than 1, the first word is that scale and is dropped. */
  function UnitAtoms(unit: Unit): (ts: seq<string>)
    ensures unit.scale == 1.0 ==> ts == Atoms(unit.text)
    ensures unit.scale != 1.0 && Atoms(unit.text) != [] ==> ts == Atoms(unit.text)[1..]
    ensures unit.scale != 1.0 && Atoms(unit.text) == [] ==> ts == []
  {
    var ts := Atoms(unit.text);
    if unit.scale != 1.0 && ts != [] then ts[1..] else ts
  }

  /** Why the conversion itself fails. */
  datatype ConvertError =
    /** No `cm` or `s` atom was left over, so `newVal` stays a bare `ufloat`
        and `newVal.value` raises `AttributeError`. */
    | NoValueAttribute

  /** What `toJansky` hands back: the input, when the atoms have no `/`,
      or a value in Janskys. */
  datatype JanskyOutcome = NoSlash | InJansky(jy: Uv)

  /** Micron to centimetre, as `(wave * u.um).decompose(bases=cgsBase)`. */
  function Centimetres(wave: Positive): (cm: Positive)
    ensures cm * 10000.0 == wave
  {
    wave / 10000.0
  }

  /** `toJansky(val, wave)` on the value `v` of a quantity with unit `unit`:
      the value is multiplied by the unit's scale, the leftover atoms are
      removed with the wavelength, and the result, read as cgs, is turned
      into Janskys (times 1e23). */
  function ToJansky(v: Uv, unit: Unit, wave: Positive): (r: Result<JanskyOutcome, ConvertError>)
    ensures r == Success(NoSlash) <==> Leftover(UnitAtoms(unit)).None?
    ensures r.Failure? <==>
      (Leftover(UnitAtoms(unit)).Some? && !Touched(Leftover(UnitAtoms(unit)).value))
    ensures r.Success? && r.value.InJansky? ==>
      Leftover(UnitAtoms(unit)).Some? &&
      var parts := Leftover(UnitAtoms(unit)).value;
      r.value.jy == ScaleUv(ScaleUv(ScaleUv(v, unit.scale),
                                    JanskyFactor(Centimetres(wave), parts.0, parts.1)), 1e23)
  {
    var w := Centimetres(wave);
    match Leftover(UnitAtoms(unit))
    case None => Success(NoSlash)
    case Some(parts) =>
      if !Touched(parts) then Failure(NoValueAttribute)
      else
        var newVal := ScaleUv(v, unit.scale);
        var jy := ScaleUv(ConvertBottom(ConvertTop(newVal, w, parts.0), w, parts.1), 1e23);
        ConvertBoth(newVal, w, parts.0, parts.1);
        Success(InJansky(jy))
  }

  /** Some leftover atom is `cm` or `s`, so the wavelength entered the value. */
  predicate Touched(parts: (seq<string>, seq<string>)) {
    "cm" in parts.0 || "s" in parts.0 || "cm" in parts.1 || "s" in parts.1
  }

  /** What removing the leftover numerator atoms `top` and denominator atoms
      `bottom` multiplies a value by. */
  function JanskyFactor(w: Positive, top: seq<string>, bottom: seq<string>): Positive {
    PosMul(TopFactor(w, top), BottomFactor(w, bottom));
    TopFactor(w, top) * BottomFactor(w, bottom)
  }

  /** Removing the numerator atoms and then the denominator atoms scales
      by the product of the two factors. */
  lemma ConvertBoth(x: Uv, w: Positive, top: seq<string>, bottom: seq<string>)
    ensures ConvertBottom(ConvertTop(x, w, top), w, bottom) == ScaleUv(x, JanskyFactor(w, top, bottom))
  {
    var ft := TopFactor(w, top);
    var fb := BottomFactor(w, bottom);
    calc {
      ConvertBottom(ConvertTop(x, w, top), w, bottom);
      ConvertBottom(ScaleUv(x, ft), w, bottom);
      ScaleUv(ScaleUv(x, ft), fb);
      { ScaleCompose(x, ft, fb); }
      ScaleUv(x, ft * fb);
      { assert JanskyFactor(w, top, bottom) == ft * fb; }
      ScaleUv(x, JanskyFactor(w, top, bottom));
    }
  }

  /** The frequency in Hz of light of wavelength `wave` microns. */
  function Frequency(wave: Positive): (nu: Positive)
    ensures nu * wave == C * 10000.0
  {
    PerWave(Centimetres(wave))
  }

  /** `JyConversion(val, wave)`: the flux density, read in cgs through its
      unit's scale, times the frequency; labelled erg/s/cm^2. */
  function JyConversion(v: Uv, unit: Unit, wave: Positive): (r: Quantity)
    ensures r.Measured? && r.unit == ErgFlux
    ensures r.v == ScaleUv(ScaleUv(v, unit.scale), Frequency(wave))
  {
    ScaleCompose(v, Frequency(wave), unit.scale);
    ScaleCompose(v, unit.scale, Frequency(wave));
    Measured(ScaleUv(ScaleUv(v, Frequency(wave)), unit.scale), ErgFlux)
  }

  /** The warnings `convert` and `toJansky` log before handing a value back. */
  datatype Warning =
    | NotConvertible     // "Value could not be converted."
    | MissingZeroPoint   // "Flux zero point required for magnitude conversion."
    | NotFluxDensity     // "Check units they don't seem to be in spectral flux density units"

  datatype Outcome = Outcome(q: Quantity, warnings: seq<Warning>)

  /** `if zero:` in Python: a zero point is given and is not zero. */
  predicate HasZeroPoint(zero: Option<real>) {
    zero.Some? && zero.value != 0.0
  }

  /** `convert(val, wave, zero)`. Only a quantity of a `ufloat` is
      converted; a magnitude needs a zero point and goes through
      `magConversion` (a parameter here) into Janskys; a unit that is not a
      flux density per unit frequency first goes through `toJansky`; then
      `JyConversion` multiplies by the frequency. */
  function Convert(val: Quantity, wave: Positive, zero: Option<real>,
                   magToJansky: (Uv, real, real) -> Uv): (r: Result<Outcome, ConvertError>)
    ensures !val.Measured? ==> r == Success(Outcome(val, [NotConvertible]))
    ensures val.Measured? && val.unit.magnitude && !HasZeroPoint(zero) ==>
      r == Success(Outcome(val, [MissingZeroPoint]))
    ensures val.Measured? && val.unit.magnitude && HasZeroPoint(zero) ==>
      r == Success(Outcome(Measured(ScaleUv(ScaleUv(magToJansky(val.v, wave, zero.value), Jansky.scale),
                                            Frequency(wave)), ErgFlux), []))
    ensures val.Measured? && !val.unit.magnitude && val.unit.density ==>
      r == Success(Outcome(Measured(ScaleUv(ScaleUv(val.v, val.unit.scale), Frequency(wave)), ErgFlux), []))
    ensures r.Failure? <==> val.Measured? && !val.unit.magnitude && !val.unit.density
                            && ToJansky(val.v, val.unit, wave).Failure?
    ensures val.Measured? && !val.unit.magnitude && !val.unit.density
            && ToJansky(val.v, val.unit, wave) == Success(NoSlash) ==>
      r == Success(Outcome(JyConversion(val.v, val.unit, wave), [NotFluxDensity]))
    ensures val.Measured? && !val.unit.magnitude && !val.unit.density
            && ToJansky(val.v, val.unit, wave).Success? && ToJansky(val.v, val.unit, wave).value.InJansky? ==>
      r == Success(Outcome(JyConversion(ToJansky(val.v, val.unit, wave).value.jy, Jansky, wave), []))
    ensures r.Success? && NotConvertible !in r.value.warnings
                       && MissingZeroPoint !in r.value.warnings ==>
      r.value.q.Measured? && r.value.q.unit == ErgFlux
  {
    if !val.Measured? then Success(Outcome(val, [NotConvertible]))
    else if val.unit.magnitude && !HasZeroPoint(zero) then Success(Outcome(val, [MissingZeroPoint]))
    else
      var q := if val.unit.magnitude then Measured(magToJansky(val.v, wave, zero.value), Jansky) else val;
      if q.unit.density then Success(Outcome(JyConversion(q.v, q.unit, wave), []))
      else
        match ToJansky(q.v, q.unit, wave)
        case Failure(e) => Failure(e)
        case Success(NoSlash) => Success(Outcome(JyConversion(q.v, q.unit, wave), [NotFluxDensity]))
        case Success(InJansky(jy)) => Success(Outcome(JyConversion(jy, Jansky, wave), []))
  }
}
