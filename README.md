# Sustainability model of social-model, in Dafny

`social-model/app.py` is a Streamlit page. Inside it sits a small deterministic
model of a society:

- a cultural maturity index `Tn`, the weighted average (weights 0.3, 0.3, 0.2,
  0.2) of four components `t1..t4` (diplomacy and security, primary industry
  and energy, education and welfare, culture and spirit);
- a yearly simulation that starts from resource `R0 = 100` and desire
  `D0 = 80`, adds `beta * Tn` to the resource and `alpha * (1 - Tn)` to the
  desire each year, and records resource, desire and the score
  `Tn * (R - D)` for every year, index 0 being the initial pair;
- a verdict drawn from the final score in three bands: above 20 (highly
  sustainable), above 0 up to 20 (partially sustainable), 0 or below
  (sustainability problem).

`social_model.dfy` (module `SocialModel`) holds the whole model:

- `MaturityIndex` is the weighted average, as a function.
- The recurrence is specified by the recursive functions `Resource`,
  `Desire` and `Score`, and by the closed forms `ResourceClosedForm` and
  `DesireClosedForm`. Lemmas prove that the recurrence and the closed forms
  agree. They also prove monotonicity, that the resource is flat at `Tn = 0`
  and the desire at `Tn = 1`, and that the score series is arithmetic.
- `Simulate` is the loop itself, as a method that appends to three sequences.
  It is proved against those functions.
- `Classify` is the verdict, over the enum `Verdict`.
- `VisualizationPage` puts the three together for slider values inside the
  slider ranges.

Python floats are modelled as exact reals. The slider ranges (`years` in
[1,50], each `t_i` in [0,1], `alpha` and `beta` in [0.1,2.0]) appear only as
the precondition of `VisualizationPage`. The other members are stated for all
inputs, or under the weaker conditions their property needs.

Where the documentation and the code disagree, the model follows the code:

- The interpretation table on the score page (`social-model/app.py:120-124`)
  lists "0〜20" and "< 0". The branches at `social-model/app.py:77-82` put a
  final score of exactly 0 in the problem band. `Classify` and `InBand` do the
  same, and `ImmatureSocietyIsUnsustainable` shows that this case is reached:
  with every component at 0, the score is 0 in every year.
- The score is computed from the pair after each step (`social-model/app.py:49-53`),
  and index 0 from the initial pair (`social-model/app.py:46`).
- The verdict is an if/elif/else over fixed thresholds, not a configurable
  table of bands. `Classify` models it the same way.

## Model

| member | source | states |
|---|---|---|
| `SocialModel.MaturityIndex` | social-model/app.py:23-26 | Tn lies between the smallest and the largest of t1..t4. It is in [0,1] whenever all four components are. Four equal components c give Tn = c. |
| `SocialModel.MaturityIndexMonotone` | social-model/app.py:23-26 | Raising any component never lowers Tn, because all four weights are positive. |
| `SocialModel.ClosedFormsAgree` | social-model/app.py:45-52 | After k steps of the loop's updates, the resource is R0 + k·beta·Tn and the desire is D0 + k·alpha·(1 − Tn). |
| `SocialModel.ResourceMonotone` | social-model/app.py:49 | With Tn ≥ 0 and beta ≥ 0, the resource of an earlier year is never above that of a later year. |
| `SocialModel.DesireMonotone` | social-model/app.py:50 | With Tn ≤ 1 and alpha ≥ 0, the desire of an earlier year is never above that of a later year. |
| `SocialModel.FlatSeries` | social-model/app.py:49-50 | Tn = 0 keeps the resource at R0 in every year. Tn = 1 keeps the desire at D0 in every year. |
| `SocialModel.SeriesNonDecreasing` | social-model/app.py:49-52 | Resource and desire lists that follow the recurrence are non-decreasing when Tn is in [0,1] and alpha, beta ≥ 0. |
| `SocialModel.ScoreIncrement` | social-model/app.py:49-53 | The score of year k+1 is the score of year k plus the constant step Tn·(beta·Tn − alpha·(1 − Tn)). |
| `SocialModel.ScoreArithmetic` | social-model/app.py:46-53 | The score of year k is Tn·(R0 − D0) plus k constant steps, so the score series is arithmetic. |
| `SocialModel.ScoreTrend` | social-model/app.py:49-53 | For Tn > 0, the score rises from one year to the next exactly when beta·Tn exceeds alpha·(1 − Tn). |
| `SocialModel.Simulate` | social-model/app.py:45-53 | The three lists have length years + 1. Index 0 holds R0, D0 and Tn·(R0 − D0). Each entry of R and D is the recurrence's value for its year and equals the closed form. Each score is Tn·(R − D) of the same index. R and D are non-decreasing when Tn is in [0,1] and alpha, beta ≥ 0. |
| `SocialModel.Classify` | social-model/app.py:77-82 | The verdict is the one band containing the score. Every real score lies in that band and in no other, and 0 falls in the problem band. |
| `SocialModel.ClassifyMonotone` | social-model/app.py:77-82 | A higher final score never gets a worse verdict. |
| `SocialModel.VisualizationPage` | social-model/app.py:14-82 | For slider values in range: Tn is in [0,1], and the lists have length years + 1. Index k of the resource and desire lists holds R0 + k·beta·Tn and D0 + k·alpha·(1 − Tn), both lists are non-decreasing, and index k of the score list holds the year-k score. The final score is the last list entry and equals Tn·(R0 − D0) plus years constant steps. The verdict is the band containing that score. |
| `SocialModel.ImmatureSocietyIsUnsustainable` | social-model/app.py:45-82 | With every component at 0, the score of every year is exactly 0 for any rates, and that score of 0 gets the problem verdict. |
| `SocialModel.MatureSocietyIsHighlySustainable` | social-model/app.py:45-82 | With every component at 1, at least one year and beta > 0, the verdict is highly sustainable. |
| `SocialModel.DefaultSettingsArePartial` | social-model/app.py:14-82 | The sliders' default positions (20 years, components 0.5, alpha 1.0, beta 0.5) give a final score of 7.5 and the partially sustainable verdict. |

## Left out

- The Streamlit widgets (sidebar sliders, the page radio at `social-model/app.py:14-36`) are input only. Their ranges appear as the precondition of `VisualizationPage`.
- The matplotlib charts and `st.pyplot` calls (`social-model/app.py:55-73`) only render output.
- The background and interpretation pages (`social-model/app.py:88-130`) are static text.
- The message texts, the `:.2f` formatting and the choice of `st.success` / `st.warning` / `st.error` (`social-model/app.py:78-82`) are presentation. The verdict is the enum `Verdict`.
- Floating-point rounding: Python floats are exact reals here, so no claim is made about rounding.
- The unused constant `T0` (`social-model/app.py:11`) and the unused `numpy` import (`social-model/app.py:3`) have no effect.
- Other variants of the model (fixed, mean or minimum aggregation of Tn, a harmony index, two- or four-band verdicts) are not part of this model. The file modelled here uses only the weighted average and the three bands.
