/**
  The sustainability model of the social-model Streamlit page: a cultural
  maturity index Tn aggregated from four components, a yearly simulation of
  resource R and desire D driven by Tn, the score Tn * (R - D) per year, and
  the verdict drawn from the final score.

  Python floats are modelled as exact reals; the widgets, charts and text
  pages of the script are not part of this model.
 */
module SocialModel {

  // ---------------------------------------------------------------------
  // Constants of the script
  // ---------------------------------------------------------------------

  /** Initial resource level R(0). */
  const R0: real := 100.0
  /** Initial desire level D(0). */
  const D0: real := 80.0

  /** Fixed weights of the four maturity components t1..t4. */
  const W1: real := 0.3
  const W2: real := 0.3
  const W3: real := 0.2
  const W4: real := 0.2

  /** Score thresholds of the verdict bands. */
  const HighThreshold: real := 20.0
  const PartialThreshold: real := 0.0

  predicate InUnit(x: real) {
    0.0 <= x <= 1.0
  }

  /** The ranges the sidebar sliders allow: years in [1,50], each component
      in [0,1], both growth coefficients in [0.1,2.0]. */
  predicate ValidSliders(years: int, t1: real, t2: real, t3: real, t4: real, alpha: real, beta: real) {
    && 1 <= years <= 50
    && InUnit(t1) && InUnit(t2) && InUnit(t3) && InUnit(t4)
    && 0.1 <= alpha <= 2.0
    && 0.1 <= beta <= 2.0
  }

  function Min(a: real, b: real): real {
    if a <= b then a else b
  }

  function Max(a: real, b: real): real {
    if a <= b then b else a
  }

  function Min4(a: real, b: real, c: real, d: real): real {
    Min(Min(a, b), Min(c, d))
  }

  function Max4(a: real, b: real, c: real, d: real): real {
    Max(Max(a, b), Max(c, d))
  }

  // ---------------------------------------------------------------------
  // Maturity index
  // ---------------------------------------------------------------------

  /** The weighted average of the four maturity components. It lies between
      the smallest and the largest component, so it stays in [0,1] when they
      do, and it is the common value when all four agree. */
  function MaturityIndex(t1: real, t2: real, t3: real, t4: real): (tn: real)
    ensures Min4(t1, t2, t3, t4) <= tn <= Max4(t1, t2, t3, t4)
    ensures InUnit(t1) && InUnit(t2) && InUnit(t3) && InUnit(t4) ==> InUnit(tn)
    ensures t1 == t2 == t3 == t4 ==> tn == t1
  {
    (W1 * t1 + W2 * t2 + W3 * t3 + W4 * t4) / (W1 + W2 + W3 + W4)
  }

  /** Raising one component never lowers the index (all weights are positive). */
  lemma MaturityIndexMonotone(t1: real, t2: real, t3: real, t4: real,
                              u1: real, u2: real, u3: real, u4: real)
    requires t1 <= u1 && t2 <= u2 && t3 <= u3 && t4 <= u4
    ensures MaturityIndex(t1, t2, t3, t4) <= MaturityIndex(u1, u2, u3, u4)
  {
  }

  // ---------------------------------------------------------------------
  // The yearly recurrence and its closed form
  // ---------------------------------------------------------------------

  /** Resource after k yearly steps of R := R + beta * Tn, starting at R0. */
  function Resource(k: nat, beta: real, tn: real): real {
    if k == 0 then R0 else Resource(k - 1, beta, tn) + beta * tn
  }

  /** Desire after k yearly steps of D := D + alpha * (1 - Tn), starting at D0. */
  function Desire(k: nat, alpha: real, tn: real): real {
    if k == 0 then D0 else Desire(k - 1, alpha, tn) + alpha * (1.0 - tn)
  }

  /** The sustainability score Tn * (R - D) of one resource/desire pair. */
  function ScoreOf(tn: real, r: real, d: real): real {
    tn * (r - d)
  }

  /** Score of year k, taken from the resource and desire of that same year. */
  function Score(k: nat, alpha: real, beta: real, tn: real): real {
    ScoreOf(tn, Resource(k, beta, tn), Desire(k, alpha, tn))
  }

  /** The fixed amount by which the score changes from one year to the next. */
  function ScoreStep(alpha: real, beta: real, tn: real): real {
    tn * (beta * tn - alpha * (1.0 - tn))
  }

  /** Closed form of the resource series: k equal increments beta * Tn. */
  function ResourceClosedForm(k: nat, beta: real, tn: real): real {
    R0 + (k as real) * beta * tn
  }

  /** Closed form of the desire series: k equal increments alpha * (1 - Tn). */
  function DesireClosedForm(k: nat, alpha: real, tn: real): real {
    D0 + (k as real) * alpha * (1.0 - tn)
  }

  /** The recurrence and the closed form agree in every year. */
  lemma {:induction false} ClosedFormsAgree(k: nat, alpha: real, beta: real, tn: real)
    ensures Resource(k, beta, tn) == ResourceClosedForm(k, beta, tn)
    ensures Desire(k, alpha, tn) == DesireClosedForm(k, alpha, tn)
  {
    if k > 0 {
      ClosedFormsAgree(k - 1, alpha, beta, tn);
      var m := (k - 1) as real;
      assert k as real == m + 1.0;
      assert (m + 1.0) * beta == m * beta + beta;
      assert (m * beta + beta) * tn == m * beta * tn + beta * tn;
      assert Resource(k, beta, tn) == Resource(k - 1, beta, tn) + beta * tn;
      assert Resource(k - 1, beta, tn) == R0 + m * beta * tn;
      assert (m + 1.0) * alpha == m * alpha + alpha;
      assert (m * alpha + alpha) * (1.0 - tn) == m * alpha * (1.0 - tn) + alpha * (1.0 - tn);
      assert Desire(k, alpha, tn) == Desire(k - 1, alpha, tn) + alpha * (1.0 - tn);
      assert Desire(k - 1, alpha, tn) == D0 + m * alpha * (1.0 - tn);
    }
  }

  /** With Tn >= 0 and beta >= 0 the resource never decreases. */
  lemma {:induction false} ResourceMonotone(j: nat, k: nat, beta: real, tn: real)
    requires j <= k
    requires 0.0 <= beta && 0.0 <= tn
    ensures Resource(j, beta, tn) <= Resource(k, beta, tn)
  {
    if j < k {
      ResourceMonotone(j, k - 1, beta, tn);
      assert 0.0 <= beta * tn;
    }
  }

  /** With Tn <= 1 and alpha >= 0 the desire never decreases. */
  lemma {:induction false} DesireMonotone(j: nat, k: nat, alpha: real, tn: real)
    requires j <= k
    requires 0.0 <= alpha && tn <= 1.0
    ensures Desire(j, alpha, tn) <= Desire(k, alpha, tn)
  {
    if j < k {
      DesireMonotone(j, k - 1, alpha, tn);
      assert 0.0 <= alpha * (1.0 - tn);
    }
  }

  /** Tn = 0 freezes the resource at R0; Tn = 1 freezes the desire at D0. */
  lemma {:induction false} FlatSeries(k: nat, alpha: real, beta: real, tn: real)
    ensures tn == 0.0 ==> Resource(k, beta, tn) == R0
    ensures tn == 1.0 ==> Desire(k, alpha, tn) == D0
  {
    if k > 0 {
      FlatSeries(k - 1, alpha, beta, tn);
    }
  }

  /** Consecutive scores differ by ScoreStep. */
  lemma ScoreIncrement(k: nat, alpha: real, beta: real, tn: real)
    ensures Score(k + 1, alpha, beta, tn) == Score(k, alpha, beta, tn) + ScoreStep(alpha, beta, tn)
  {
  }

  /** The score series is arithmetic: year k's score is the initial score
      plus k score steps. */
  lemma {:induction false} ScoreArithmetic(k: nat, alpha: real, beta: real, tn: real)
    ensures Score(k, alpha, beta, tn) == tn * (R0 - D0) + (k as real) * ScoreStep(alpha, beta, tn)
  {
    if k > 0 {
      ScoreArithmetic(k - 1, alpha, beta, tn);
      ScoreIncrement(k - 1, alpha, beta, tn);
    }
  }

  /** For a positive index the score rises from one year to the next exactly
      when the resource gain beta * Tn exceeds the desire gain alpha * (1 - Tn). */
  lemma ScoreTrend(k: nat, alpha: real, beta: real, tn: real)
    requires 0.0 < tn
    ensures Score(k + 1, alpha, beta, tn) > Score(k, alpha, beta, tn) <==> beta * tn > alpha * (1.0 - tn)
  {
    ScoreIncrement(k, alpha, beta, tn);
  }

  predicate NonDecreasing(s: seq<real>) {
    forall i, j :: 0 <= i <= j < |s| ==> s[i] <= s[j]
  }

  /** Series that follow the recurrence are non-decreasing when Tn is in
      [0,1] and both coefficients are non-negative. */
  lemma SeriesNonDecreasing(rs: seq<real>, ds: seq<real>, alpha: real, beta: real, tn: real)
    requires forall k :: 0 <= k < |rs| ==> rs[k] == Resource(k, beta, tn)
    requires forall k :: 0 <= k < |ds| ==> ds[k] == Desire(k, alpha, tn)
    requires InUnit(tn) && 0.0 <= alpha && 0.0 <= beta
    ensures NonDecreasing(rs) && NonDecreasing(ds)
  {
    forall i, j | 0 <= i <= j < |rs|
      ensures rs[i] <= rs[j]
    {
      ResourceMonotone(i, j, beta, tn);
    }
    forall i, j | 0 <= i <= j < |ds|
      ensures ds[i] <= ds[j]
    {
      DesireMonotone(i, j, alpha, tn);
    }
  }

  // ---------------------------------------------------------------------
  // Simulation
  // ---------------------------------------------------------------------

  /** The visualisation page's loop: start from (R0, D0), run `years` steps,
      and record resource, desire and score after every step, index 0 being
      the initial pair. Every entry is the recurrence's value for its year and
      equals the closed form, the score of each year is taken from that
      year's pair, and both series are non-decreasing when Tn is in [0,1]
      and the coefficients are non-negative. */
  method Simulate(years: nat, alpha: real, beta: real, tn: real)
    returns (rVals: seq<real>, dVals: seq<real>, scoreVals: seq<real>)
    ensures |rVals| == |dVals| == |scoreVals| == years + 1
    ensures rVals[0] == R0 && dVals[0] == D0 && scoreVals[0] == ScoreOf(tn, R0, D0)
    ensures forall k :: 0 <= k < |rVals| ==> rVals[k] == Resource(k, beta, tn)
    ensures forall k :: 0 <= k < |dVals| ==> dVals[k] == Desire(k, alpha, tn)
    ensures forall k :: 0 <= k < |rVals| ==>
              rVals[k] == ResourceClosedForm(k, beta, tn) && dVals[k] == DesireClosedForm(k, alpha, tn)
    ensures forall k :: 0 <= k < |scoreVals| ==> scoreVals[k] == ScoreOf(tn, rVals[k], dVals[k])
    ensures InUnit(tn) && 0.0 <= alpha && 0.0 <= beta ==> NonDecreasing(rVals) && NonDecreasing(dVals)
  {
    var r, d := R0, D0;
    rVals, dVals, scoreVals := [r], [d], [ScoreOf(tn, r, d)];
    for n := 0 to years
      invariant |rVals| == |dVals| == |scoreVals| == n + 1
      invariant r == Resource(n, beta, tn) && d == Desire(n, alpha, tn)
      invariant forall k :: 0 <= k < |rVals| ==> rVals[k] == Resource(k, beta, tn)
      invariant forall k :: 0 <= k < |dVals| ==> dVals[k] == Desire(k, alpha, tn)
      invariant forall k :: 0 <= k < |scoreVals| ==> scoreVals[k] == ScoreOf(tn, rVals[k], dVals[k])
    {
      r := r + beta * tn;
      d := d + alpha * (1.0 - tn);
      rVals := rVals + [r];
      dVals := dVals + [d];
      scoreVals := scoreVals + [ScoreOf(tn, r, d)];
    }
    forall k | 0 <= k < |rVals|
      ensures rVals[k] == ResourceClosedForm(k, beta, tn) && dVals[k] == DesireClosedForm(k, alpha, tn)
    {
      ClosedFormsAgree(k, alpha, beta, tn);
    }
    if InUnit(tn) && 0.0 <= alpha && 0.0 <= beta {
      SeriesNonDecreasing(rVals, dVals, alpha, beta, tn);
    }
  }

  // ---------------------------------------------------------------------
  // Verdict
  // ---------------------------------------------------------------------

  /** The three outcomes the page reports for the final score, from best to worst. */
  datatype Verdict = HighlySustainable | PartiallySustainable | Unsustainable

  /** Position of a verdict in the order of the bands, the worst being 0. */
  function Rank(v: Verdict): nat {
    match v
    case Unsustainable => 0
    case PartiallySustainable => 1
    case HighlySustainable => 2
  }

  /** The score interval each verdict stands for: (20, inf), (0, 20] and (-inf, 0]. */
  predicate InBand(score: real, v: Verdict) {
    match v
    case HighlySustainable => HighThreshold < score
    case PartiallySustainable => PartialThreshold < score <= HighThreshold
    case Unsustainable => score <= PartialThreshold
  }

  /** The bands checked from the highest threshold down. The result is the one
      band that contains the score: every score lands in some band and in no
      other, a score of exactly 0 included (it is Unsustainable). */
  function Classify(score: real): (v: Verdict)
    ensures InBand(score, v)
    ensures forall w :: InBand(score, w) ==> w == v
  {
    if score > HighThreshold then HighlySustainable
    else if score > PartialThreshold then PartiallySustainable
    else Unsustainable
  }

  /** A higher score never gets a worse verdict. */
  lemma ClassifyMonotone(s1: real, s2: real)
    requires s1 <= s2
    ensures Rank(Classify(s1)) <= Rank(Classify(s2))
  {
  }

  // ---------------------------------------------------------------------
  // The visualisation page as a whole
  // ---------------------------------------------------------------------

  /** From the slider values: aggregate Tn, run the simulation, take the last
      score and classify it. The final score is the initial score plus
      `years` constant score steps. */
  method VisualizationPage(years: int, t1: real, t2: real, t3: real, t4: real, alpha: real, beta: real)
    returns (tn: real, rVals: seq<real>, dVals: seq<real>, scoreVals: seq<real>, finalScore: real, verdict: Verdict)
    requires ValidSliders(years, t1, t2, t3, t4, alpha, beta)
    ensures InUnit(tn) && tn == MaturityIndex(t1, t2, t3, t4)
    ensures |rVals| == |dVals| == |scoreVals| == years + 1
    ensures forall k :: 0 <= k < |rVals| ==>
              rVals[k] == ResourceClosedForm(k, beta, tn) && dVals[k] == DesireClosedForm(k, alpha, tn)
    ensures NonDecreasing(rVals) && NonDecreasing(dVals)
    ensures forall k :: 0 <= k < |scoreVals| ==> scoreVals[k] == Score(k, alpha, beta, tn)
    ensures finalScore == scoreVals[years]
    ensures finalScore == tn * (R0 - D0) + (years as real) * ScoreStep(alpha, beta, tn)
    ensures InBand(finalScore, verdict)
  {
    tn := MaturityIndex(t1, t2, t3, t4);
    rVals, dVals, scoreVals := Simulate(years, alpha, beta, tn);
    finalScore := scoreVals[|scoreVals| - 1];
    ScoreArithmetic(years, alpha, beta, tn);
    verdict := Classify(finalScore);
  }

  // ---------------------------------------------------------------------
  // Consequences for particular settings
  // ---------------------------------------------------------------------

  /** With every component at 0 the score is 0 in every year, so the verdict
      is always Unsustainable. */
  lemma ImmatureSocietyIsUnsustainable(years: nat, alpha: real, beta: real)
    ensures Score(years, alpha, beta, MaturityIndex(0.0, 0.0, 0.0, 0.0)) == 0.0
    ensures Classify(Score(years, alpha, beta, MaturityIndex(0.0, 0.0, 0.0, 0.0))) == Unsustainable
  {
    var tn := MaturityIndex(0.0, 0.0, 0.0, 0.0);
    assert tn == 0.0;
    assert Score(years, alpha, beta, tn) == ScoreOf(0.0, Resource(years, beta, tn), Desire(years, alpha, tn)) == 0.0;
  }

  /** With every component at 1 the desire stays at D0 while the resource
      grows, so after at least one year with beta > 0 the verdict is
      HighlySustainable. */
  lemma MatureSocietyIsHighlySustainable(years: nat, alpha: real, beta: real)
    requires 1 <= years && 0.0 < beta
    ensures Classify(Score(years, alpha, beta, MaturityIndex(1.0, 1.0, 1.0, 1.0))) == HighlySustainable
  {
    var tn := MaturityIndex(1.0, 1.0, 1.0, 1.0);
    assert tn == 1.0;
    FlatSeries(years, alpha, beta, tn);
    ClosedFormsAgree(years, alpha, beta, tn);
    assert (years as real) * beta > 0.0;
    assert Score(years, alpha, beta, tn) == R0 + (years as real) * beta - D0;
  }

  /** The sliders' default positions (20 years, every component 0.5,
      alpha 1.0, beta 0.5) end at a score of 7.5: partially sustainable. */
  lemma DefaultSettingsArePartial()
    ensures Score(20, 1.0, 0.5, MaturityIndex(0.5, 0.5, 0.5, 0.5)) == 7.5
    ensures Classify(Score(20, 1.0, 0.5, MaturityIndex(0.5, 0.5, 0.5, 0.5))) == PartiallySustainable
  {
    assert MaturityIndex(0.5, 0.5, 0.5, 0.5) == 0.5;
    ScoreArithmetic(20, 1.0, 0.5, 0.5);
    assert ScoreStep(1.0, 0.5, 0.5) == -0.125;
  }
}
