/** Physical constants of the skydiver model and the closed-form sizing of a
    reference cross-sectional area from a target terminal velocity.
    Floating-point numbers are modelled as exact reals. */
module Physics {

  /** Mass of the jumper with equipment, in kg. */
  const M: real := 90.0
  /** Gravitational acceleration, in m/s^2. */
  const G: real := 9.81
  /** Air density in force when the reference areas are computed (kg/m^3).
      Later runs may use another density; the areas keep this one. */
  const RHO_REF: real := 1.225
  /** Drag shape coefficients of the body and of a canopy. */
  const CX_BODY: real := 1.0
  const CX_PARA: real := 1.5
  /** Fixed integration step, in s. */
  const DT: real := 0.01

  /** Area S that makes `v` the terminal velocity for shape coefficient `cx`
      in air of density `rho`: the S that solves M*G == 0.5*cx*rho*S*v^2. */
  function CalculateArea(targetV: real, cx: real, rho: real): (s: real)
    requires targetV != 0.0 && cx != 0.0 && rho != 0.0
    ensures 0.5 * cx * rho * s * (targetV * targetV) == M * G
    ensures s > 0.0 <==> cx * rho > 0.0
  {
    var k := M * G / (targetV * targetV);
    var c := 0.5 * cx * rho;
    assert c != 0.0;
    var s := k / c;
    assert c * s == k;
    assert k * (targetV * targetV) == M * G;
    assert 0.5 * cx * rho * s * (targetV * targetV) == (c * s) * (targetV * targetV);
    assert s > 0.0 <==> c > 0.0 by {
      assert k > 0.0;
      assert s * c == k;
    }
    s
  }

  /** The force balance has exactly one solution: any area that makes `v`
      the terminal velocity is the one CalculateArea returns. */
  lemma AreaIsUnique(targetV: real, cx: real, rho: real, s: real)
    requires targetV != 0.0 && cx != 0.0 && rho != 0.0
    requires 0.5 * cx * rho * s * (targetV * targetV) == M * G
    ensures s == CalculateArea(targetV, cx, rho)
  {
    var a := CalculateArea(targetV, cx, rho);
    var c := 0.5 * cx * rho * (targetV * targetV);
    assert c != 0.0 by {
      assert 0.5 * cx * rho != 0.0;
      assert targetV * targetV > 0.0;
    }
    assert c * s == M * G;
    assert c * a == M * G;
    assert c * (s - a) == 0.0;
  }

  /** Reference area of the body in free fall (terminal velocity 50 m/s). */
  const S_BODY: real := CalculateArea(50.0, CX_BODY, RHO_REF)
  /** Reference area of the small canopy (terminal velocity 35 m/s). */
  const S_SMALL: real := CalculateArea(35.0, CX_PARA, RHO_REF)
  /** Reference area of the large canopy (terminal velocity 8 m/s). */
  const S_LARGE: real := CalculateArea(8.0, CX_PARA, RHO_REF)

  function Abs(x: real): real { if x < 0.0 then -x else x }

  /** The three reference areas lie further apart than the 0.01 matching
      tolerance, so each is recognised as itself and as nothing else. */
  lemma ReferenceAreasApart()
    ensures S_BODY > 0.0 && S_SMALL > 0.0 && S_LARGE > 0.0
    ensures Abs(S_SMALL - S_LARGE) >= 0.02
    ensures Abs(S_BODY - S_SMALL) >= 0.02
    ensures Abs(S_BODY - S_LARGE) >= 0.02
  {
    assert S_BODY == 90.0 * 9.81 / 2500.0 / 0.6125;
    assert S_SMALL == 90.0 * 9.81 / 1225.0 / 0.91875;
    assert S_LARGE == 90.0 * 9.81 / 64.0 / 0.91875;
  }

  lemma ProductNonNegative(a: real, b: real, c: real)
    requires a >= 0.0 && b >= 0.0 && c >= 0.0
    ensures a * b * c >= 0.0
  {
    assert a * b >= 0.0;
  }
}
