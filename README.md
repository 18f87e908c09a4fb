# A verified model of a numerical-analysis and imaging toolkit core

This project models, in Dafny, the core of a C# numerical-analysis and
image-processing library. It covers the following parts:

- **`analysis.cs`**, the numerical-analysis classes, over exact reals:
  - root finding (`Nonlinear`): bisection, secant, false position and chord;
  - golden-section search (`Optimization`);
  - quadrature (`Integration`): rectangle, midpoint, trapezoidal, Simpson and Romberg, each over a function and over samples;
  - finite-difference derivatives (`Differentation`);
  - one-step and Adams–Bashforth ODE solvers (`Differential`);
  - linear, bilinear, Lagrange, Newton and barycentric interpolation (`Interpolation`);
  - least-squares fitting (`Approximation`);
  - the conversion between a polynomial and its roots (`Roots`).
- **The wavelet decomposition**, which slices a transformed array or matrix into levels and puts it back together.
- **The Laplacian pyramid**, built and rebuilt around resampling operators the model does not see.
- **The integer point and rectangle helpers** of the imaging code, with C# 32-bit wrap-around written out.
- **The clamping arithmetic of the bitmap crop.**

How the source is turned into Dafny:

- A double is a `real`.
- A non-finite double (a NaN or an infinity that comes from a division by zero) is `Option.None`.
- A thrown exception is `Result.Err` with the exception's kind.
- Every user callback (`IDouble`, `IDoubleMesh`) is a Dafny function value.
- Every collaborator whose code is not part of the model is a function parameter. These include `Matrice.Invert`, `Solve`, `Companion`, `Var`, `EVD`, the wavelet transform and the Gaussian pyramid. A property is proved for every choice of them, except where its contract names an assumption about them (a shape the inversion or the wavelet transform keeps, or `add` undoing `sub` in the Laplacian pyramid); "## Left out" lists each such assumption.
- Where the source changes state step by step, the model is imperative:
  - the configuration classes (`Nonlinear`, `Integration`, …) become Dafny classes, with their properties as fields and their setters as methods;
  - the algorithm loops become `method`s with loop invariants;
  - in-place array work (the divided differences, the root expansion, the wavelet blocks) keeps its arrays.
- Each method is proved equal to a recursive specification function. The source's promises are then proved as lemmas about that function.

Modules:

| file | module | source |
|---|---|---|
| common.dfy | `Common` | shared sentinels, the C# `int` range and its wrap-around, `Pow`, `Factorial`, shifts and floor-log2 |
| nonlinear.dfy | `NonlinearSolver` | `Nonlinear` |
| optimization.dfy | `GoldenSection` | `Optimization` |
| integration.dfy | `Quadrature` | `Integration` |
| differentiation.dfy | `NumericalDerivative` | `Differentation` |
| differential.dfy | `OrdinaryDifferential` | `Differential` |
| interpolation.dfy | `Interpolating` | `Interpolation` |
| approximation.dfy | `LeastSquares` | `Approximation`, `LeastSquaresOptions` |
| roots.dfy | `PolynomialRoots` | `Roots` |
| wavelet.dfy | `WaveletSplit` | `WaveletDecomposition` |
| laplacian.dfy | `LaplacianPyramid` | `LaplacianPyramidTransform` |
| points.dfy | `ImagingPoints` | `Points` |
| bitmap.dfy | `BitmapCrop` | `BitmapTransform.Range`, `Crop` |

## Model

| member | source | states |
|---|---|---|
| NonlinearSolver.SecantPoint | sources/analysis.cs:147 | the secant point is undefined (NaN) exactly when `f(x2) == f(x1)` |
| NonlinearSolver.SecantPointOnChordLine | sources/analysis.cs:147 | the secant point is the zero of the line through `(x1, f(x1))` and `(x2, f(x2))` |
| NonlinearSolver.SecantPointOnLine | sources/analysis.cs:147 | for `f(x) = p·x + q` with `p ≠ 0`, one secant step from any two distinct points gives the root `-q/p` |
| NonlinearSolver.HalveKeeps | sources/analysis.cs:139-145 | one bisection pass keeps the invariant: width `(b-a)/2^n`, bracket inside `[a, b]`, `x2 == b` or `f(b)·f(x2) > 0`, `x1 == a` or `f(b)·f(x1) <= 0` |
| NonlinearSolver.BisectFromKeeps | sources/analysis.cs:137-146 | every later bracket keeps the invariant, and the loop ends with width `<= eps` or after 32767 passes |
| NonlinearSolver.BisectBracket | sources/analysis.cs:130-146 | from `[a, b]`, the final bracket satisfies the bisection invariant and stops within `eps` or at the 32767-pass cap |
| NonlinearSolver.Bisect | sources/analysis.cs:130-148 | the loop returns the secant refinement of the final bracket, as `BisectResult` defines it |
| NonlinearSolver.SecantFromStops | sources/analysis.cs:165-172 | a finite secant run ends at the pass cap or at a point with `abs(f(x2)) <= eps` |
| NonlinearSolver.SecantStops | sources/analysis.cs:157-174 | the same for the run from `(a, b)`; when `abs(f(b)) <= eps` the answer is `b` itself |
| NonlinearSolver.SecantFromStep | sources/analysis.cs:165-171 | while the residual test holds, the pair `(x1, x2)` becomes `(x2, secant point)` and the pass count goes up by one |
| NonlinearSolver.SecantOnLine | sources/analysis.cs:157-174 | on a line with non-zero slope, the secant method returns the exact root |
| NonlinearSolver.SecantMethod | sources/analysis.cs:157-174 | the loop computes `SecantResult`, including NaN when a difference of values is zero |
| NonlinearSolver.Narrow | sources/analysis.cs:193-196 | the new point replaces `x2` when `f(b)·f(p) > 0` and `x1` otherwise, and the pass count is kept |
| NonlinearSolver.NarrowKeeps | sources/analysis.cs:192-199 | one false-position pass keeps the side conditions (`x2 == b` or `f(b)·f(x2) > 0`; `x1 == a` or `f(b)·f(x1) <= 0`); a point with `abs(f(p)) < eps` becomes an end of the bracket |
| NonlinearSolver.FalsePositionFromKeeps | sources/analysis.cs:190-200 | every final bracket keeps the side conditions and is narrow, capped, or has an end where `abs(f) < eps` |
| NonlinearSolver.FalsePositionBracket | sources/analysis.cs:183-200 | the same for the run from `[a, b]` |
| NonlinearSolver.FalsePositionMethod | sources/analysis.cs:183-202 | the loop computes `FalsePositionResult`, NaN where the source divides by zero |
| NonlinearSolver.ChordIsSecantThroughA | sources/analysis.cs:220 | the chord step is the secant step through the fixed end `(a, f(a))` |
| NonlinearSolver.ChordFromStops | sources/analysis.cs:217-222 | a finite chord run ends at the pass cap or where the test `abs(f(x)/b) > eps` fails |
| NonlinearSolver.ChordStops | sources/analysis.cs:211-223 | the same for the run that starts at `(b-a)/2`, which is not the midpoint of `[a, b]` |
| NonlinearSolver.ChordMethod | sources/analysis.cs:211-224 | the loop computes `ChordResult` |
| NonlinearSolver.ComplexAlgorithm | sources/analysis.cs:105-118 | the complex `Compute` never runs bisection: `Bisection` falls through to the secant method and every other choice is kept |
| NonlinearSolver.ComplexSideIgnoresImaginaryParts | sources/analysis.cs:292-298 | complex false position compares only real parts: for `f(b) = f(x) = 1+2i` it keeps the point on `b`'s side although `f(b)·f(x)` has a negative real part |
| NonlinearSolver.Nonlinear.constructor | sources/analysis.cs:42-46 | stores the method and the eps that the `Eps` setter produces |
| NonlinearSolver.Nonlinear.SetMethodType | sources/analysis.cs:50-60 | the `MethodType` setter replaces the method |
| NonlinearSolver.Nonlinear.SetEps | sources/analysis.cs:64-74 | the `Eps` setter stores `toUnit(value)`, what `Maths.Double` returns for the value |
| NonlinearSolver.Nonlinear.Compute | sources/analysis.cs:82-97 | dispatches on the method, with bisection as the default, as `Solve` defines it |
| GoldenSection.MaximumIsMinimumOfNegation | sources/analysis.cs:400-443 | `goldenMax` on `f` is `goldenMin` on `-f`, pass by pass |
| GoldenSection.PassShrinks | sources/analysis.cs:404-412 | one pass divides the width by φ and keeps the interval inside `[a, b]` |
| GoldenSection.SearchFromShrinks | sources/analysis.cs:404-415 | every later interval keeps that invariant; the loop stops below `eps` or at the 32767-pass cap |
| GoldenSection.SearchShrinks | sources/analysis.cs:400-417 | the final interval has width `(b-a)/φ^k` after `k` passes, and the returned midpoint lies in `[a, b]` |
| GoldenSection.PassKeepsMinimiser | sources/analysis.cs:406-412 | for `f` unimodal with minimiser `m`, a pass keeps `m` inside the interval |
| GoldenSection.SearchFromKeepsMinimiser | sources/analysis.cs:404-415 | every later interval still contains `m` |
| GoldenSection.MinimumSearchKeepsMinimiser | sources/analysis.cs:400-417 | `goldenMin` returns a point within half the final width of the true minimiser |
| GoldenSection.Search | sources/analysis.cs:400-443 | the loop computes `Extremum`, the midpoint of the final interval |
| GoldenSection.Optimization.constructor | sources/analysis.cs:358-361 | stores the eps that the `Eps` setter produces |
| GoldenSection.Optimization.SetEps | sources/analysis.cs:365-375 | the `Eps` setter stores `toUnit(value)`, what `Maths.Double` returns for the value |
| GoldenSection.Optimization.Compute | sources/analysis.cs:384-388 | `max` selects `goldenMax`, otherwise `goldenMin` |
| Quadrature.RiemannConstant | sources/analysis.cs:609-612 | a sum of `k` terms `h·c` is `k·h·c` |
| Quadrature.PairSumConstant | sources/analysis.cs:684-687 | a sum of `k` trapezoids of constant height `c` is `k·h·c` |
| Quadrature.SimpsonPairsConstant | sources/analysis.cs:724-727 | `count` Simpson panel pairs of a constant `c` add up to `2·count·h·c` |
| Quadrature.ConstantIntegratesExactly | sources/analysis.cs:605-689 | for `n >= 1` the function rectangle, midpoint and trapezoidal rules integrate a constant `c` exactly to `c·(b-a)` |
| Quadrature.SimpsonSumConstant | sources/analysis.cs:722-736 | for both parities Simpson's sum over `n` samples of a constant is `(n-1)·h·c`, not `n·h·c` |
| Quadrature.SimpsonOddConstant | sources/analysis.cs:722-728 | odd `n`: the `(n-1)/2` panel pairs cover `n-1` panels |
| Quadrature.SimpsonEvenConstant | sources/analysis.cs:729-736 | even `n`: the 3/8 rule plus the pairs from sample 3 cover `n-1` panels |
| Quadrature.ThreeEighthsOfConstant | sources/analysis.cs:731 | the 3/8 rule of a constant covers 3 panels |
| Quadrature.SimpsonMissesLastPanel | sources/analysis.cs:717-738 | for `n >= 3` Simpson integrates a constant `c` to `(n-1)·h·c` with `h = (b-a)/n`: the last panel is never covered |
| Quadrature.RiemannAgree | sources/analysis.cs:609-631 | a rectangle sum depends only on the values it reads |
| Quadrature.PairSumAgree | sources/analysis.cs:684-706 | a trapezoid sum depends only on the values it reads |
| Quadrature.SimpsonPairsAgree | sources/analysis.cs:724-765 | a sum of Simpson pairs depends only on the values it reads |
| Quadrature.SimpsonSumAgree | sources/analysis.cs:722-767 | Simpson's sum depends only on samples `0..n-1` |
| Quadrature.SamplesAgree | sources/analysis.cs:611 | an array holding `f(a + i·h)` gives the samples the function rule reads |
| Quadrature.RectangleArrayAgrees | sources/analysis.cs:605-632 | the array rectangle rule on samples of `f` equals the function rule |
| Quadrature.PairArrayIsTrapezoidal | sources/analysis.cs:661-707 | the array midpoint and trapezoidal rules on `n` samples are the function trapezoidal rule on `n-1` panels with `h = (b-a)/(n-1)` |
| Quadrature.PairArrayPanels | sources/analysis.cs:661-707 | above `int.MinValue` the array rules sum `n - 1` panels of `y[0..n)`: 0 for `n <= 1`, an out-of-range read for `n > |y|`; at `int.MinValue` the unchecked `n - 1` wraps to `int.MaxValue` and the loop reads past every array a C# `int` can index |
| Quadrature.SimpsonArrayAgrees | sources/analysis.cs:717-769 | for `b ≠ a`, the array Simpson rule on samples of `f` equals the function rule |
| Quadrature.RiemannLoop | sources/analysis.cs:607-613 | the accumulation loop computes the rectangle sum |
| Quadrature.PairLoop | sources/analysis.cs:684-688 | the accumulation loop computes the trapezoid sum |
| Quadrature.RectangleFunction | sources/analysis.cs:605-614 | `rect(f, a, b, n)`, with a sum of 0 for `n <= 0` |
| Quadrature.MidpointFunction | sources/analysis.cs:642-652 | `midp(f, a, b, n)` samples the panel midpoints `a + (i + 0.5)·h` |
| Quadrature.TrapezoidalFunction | sources/analysis.cs:680-689 | `trap(f, a, b, n)` |
| Quadrature.RectangleSamples | sources/analysis.cs:623-632 | `rect(y, …)`: an index past `y` is `IndexOutOfRange` |
| Quadrature.PairSamples | sources/analysis.cs:661-707 | `midp(y, …)` and `trap(y, …)`, which compute the same formula, with the unchecked panel count `n - 1` |
| Quadrature.PanelPairsLoop | sources/analysis.cs:724-727 | the stride-2 loop adds the Simpson panel pairs from `start` up to sample `n-1` |
| Quadrature.SimpsonLoop | sources/analysis.cs:720-737 | the odd/even branches compute `SimpsonSum` |
| Quadrature.SimpsonFunction | sources/analysis.cs:717-738 | NaN when `n < 3`, otherwise Simpson's sum |
| Quadrature.SimpsonSamples | sources/analysis.cs:747-769 | NaN when `n < 3` or `h == 0`, `IndexOutOfRange` past the array, otherwise Simpson's sum |
| Quadrature.RowStepValue | sources/analysis.cs:783-794 | row `j` of the Romberg table has step `(b-a)/2^(j-1)` |
| Quadrature.RombergFromOk | sources/analysis.cs:791-812 | from row `j` on, Romberg returns a value exactly when some row `j <= i < iterations` passes the convergence test |
| Quadrature.RombergNeedsEarlyConvergence | sources/analysis.cs:780-815 | `romb` returns a value iff some row `3 <= j < iterations` converges; otherwise the write into row `iterations` throws, so `R[n, n]` is never read |
| Quadrature.OddSumConstant | sources/analysis.cs:796-799 | the sum of the `m` new points of a constant is `m·c` |
| Quadrature.RowStartConstant | sources/analysis.cs:787-800 | every trapezoidal column entry `R[j, 1]` of a constant, up to row 31, is `c·(b-a)` |
| Quadrature.ExtrapolationFixesAgreement | sources/analysis.cs:804 | Richardson's step maps two equal values to that value |
| Quadrature.TableConstant | sources/analysis.cs:787-806 | every table entry `R[j, k]` of a constant, up to row 31, is `c·(b-a)` |
| Quadrature.RombergOnConstant | sources/analysis.cs:780-815 | for a constant with a non-zero integral and `eps > 0`, `romb` returns `c·(b-a)` when `iterations >= 4` and throws when `iterations < 4` |
| Quadrature.AgreementConverges | sources/analysis.cs:807 | two equal non-zero values pass the relative-change test |
| Quadrature.RowTwo | sources/analysis.cs:787-790 | rows 1 and 2 of the table are the one-panel trapezoid, its refinement and their extrapolation |
| Quadrature.NewPoints | sources/analysis.cs:795-799 | the `k = 1, 3, …, n` loop sums the new points at the odd `k <= n`, and none when `n <= 0` |
| Quadrature.Twice32 | sources/analysis.cs:793 | `n = 2 * n` as a C# `int`: the result is in range and equals `2n` modulo 2^32 |
| Quadrature.RowCountDoubles | sources/analysis.cs:782-796 | `n` is `2^(j-1)` after row `j` up to row 31, wraps to `int.MinValue` in row 32 and to 0 from row 33 on; the odd `k <= n` are then `2^(j-2)` new points up to row 31 and none after |
| Quadrature.RowStartAfterWrap | sources/analysis.cs:793-800 | from row 32 on, no new point is sampled and `R[j, 1]` is `R[31, 1]` halved `j - 31` times |
| Quadrature.ExtrapolateRow | sources/analysis.cs:801-806 | the `k` loop fills row `j` with the table's entries and changes nothing else |
| Quadrature.ExtrapolateCell | sources/analysis.cs:804 | one extrapolation writes `R[j, k]` and nothing else |
| Quadrature.RombergFromStep | sources/analysis.cs:807-811 | a converged row answers; otherwise the search goes on at the next row |
| Quadrature.FillRow | sources/analysis.cs:800-806 | writes row `j` from row `j-1` and the new points, changing no other row |
| Quadrature.NextRow | sources/analysis.cs:793-806 | one pass of the outer loop: doubles `n` with 32-bit wrap-around, halves `h` and fills row `j` |
| Quadrature.RowConverged | sources/analysis.cs:807-811 | the test on `R[j, j]`, `R[j, j-1]` decides the specification's next step |
| Quadrature.ConvergedIsSettled | sources/analysis.cs:807 | the test on the stored entries is the test on the table's values |
| Quadrature.FirstRows | sources/analysis.cs:782-790 | fills rows 1 and 2 and leaves `h = (b-a)/2` |
| Quadrature.RombergMethod | sources/analysis.cs:780-815 | `romb` is `RombergRule`: `Overflow` for a negative size, `IndexOutOfRange` below 3 rows or when no row converges in time; the table it fills follows `n` through its 32-bit wrap |
| Quadrature.Integration.constructor | sources/analysis.cs:466-469 | stores the rule |
| Quadrature.Integration.SetMethodType | sources/analysis.cs:473-483 | the `MethodType` setter replaces the rule |
| Quadrature.Integration.ComputeFunction | sources/analysis.cs:492-512 | dispatches to the function rules, rectangle by default, Romberg with `eps = 1e-8` |
| Quadrature.Integration.ComputeSamples | sources/analysis.cs:521-538 | dispatches to the array rules |
| Quadrature.IntegrateSamples | sources/analysis.cs:535-536 | the array overload has no Romberg case and integrates with the rectangle rule; the array midpoint and trapezoidal rules throw `IndexOutOfRange` at `n == int.MinValue`, where `n - 1` wraps |
| NumericalDerivative.DeltaRowEntries | sources/analysis.cs:1250-1257 | row `j` of the table holds `j^k / k!` in column `k` |
| NumericalDerivative.DeltaRowsEntries | sources/analysis.cs:1248-1258 | row `j` of the table is the row the inner loop builds for `j` |
| NumericalDerivative.DeltasShape | sources/analysis.cs:1243-1258 | the table is `points × points` with `deltas[j, k] = j^k / k!` |
| NumericalDerivative.DeltaBorders | sources/analysis.cs:1250-1255 | column 0 is all ones, and row 0 is `1, 0, 0, …` (`0^0 = 1`) |
| NumericalDerivative.DeltaRecurrence | sources/analysis.cs:1255-1256 | along a row, `(k+1)·deltas[j, k+1] = j·deltas[j, k]`, the step the running product `h *= delta` takes |
| NumericalDerivative.GetCoefficients | sources/analysis.cs:1239-1269 | the nested loops build the table, then hand it to the matrix inversion |
| NumericalDerivative.Derivative | sources/analysis.cs:1115-1137 | throws `InvalidArgument` exactly when `order` lies outside `[0, points]`; otherwise throws `Overflow` exactly when `points == int.MaxValue`, where the unchecked `points + 1` wraps negative and allocating the table fails; otherwise returns a value |
| Common.Increment32 | sources/analysis.cs:1124 | the unchecked `points + 1` of a non-negative `int` is one more below `int.MaxValue` and `int.MinValue` at it |
| NumericalDerivative.DerivativeOfSamples | sources/analysis.cs:1146-1168 | throws on a bad order first, then `Overflow` at `points == int.MaxValue`; otherwise the reads `y[index + i]` fail exactly when the window leaves `y` or the unchecked `index + points` passes `int.MaxValue`; otherwise it returns a value |
| NumericalDerivative.Coefficients | sources/analysis.cs:1125 | the inverted table is `(points+1) × (points+1)` |
| NumericalDerivative.SumsAgree | sources/analysis.cs:1129-1133 | the weighted sum over an array holding `f(x + i·h)` equals the weighted sum over `f` |
| NumericalDerivative.SamplesAreForward | sources/analysis.cs:1115-1168 | the samples are forward (`center` runs from 0 to `points`): on `y[index+i] = f(x + i·h)` both overloads agree |
| NumericalDerivative.FunctionLoop | sources/analysis.cs:1129-1133 | the loop computes the weighted sum over `f(x + i·h)` |
| NumericalDerivative.ArrayLoop | sources/analysis.cs:1160-1164 | the loop computes the weighted sum over `y[index + i]` |
| NumericalDerivative.Differentation.constructor | sources/analysis.cs:1086-1089 | stores a non-negative point count |
| NumericalDerivative.Differentation.Create | sources/analysis.cs:1086-1106 | the public constructor throws for a negative count |
| NumericalDerivative.Differentation.SetPoints | sources/analysis.cs:1093-1106 | the `Points` setter rejects a negative value and leaves the count as it was; otherwise it stores it |
| NumericalDerivative.Differentation.ComputeFunction | sources/analysis.cs:1115-1137 | `Compute(function, x, h, order)` is `Derivative`; `h^order == 0` gives a non-finite value |
| NumericalDerivative.Differentation.ComputeSamples | sources/analysis.cs:1146-1168 | `Compute(y, index, h, order)` is `DerivativeOfSamples` |
| OrdinaryDifferential.OneStep | sources/analysis.cs:1509-1604 | each one-step solver fails on an empty grid (the array of size -1); otherwise it returns `x.Length - 1` values and `result[i]` is the state at `x[i+1]`, each found by one step of the method from the previous state |
| OrdinaryDifferential.StepOfConstant | sources/analysis.cs:1517-1599 | for `f ≡ c`, one Euler, RK2, RK4 or Fehlberg step advances `y` by exactly `c·h` |
| OrdinaryDifferential.FehlbergOfConstant | sources/analysis.cs:1591-1599 | the Fehlberg update advances `y` by `c·h` for `f ≡ c`; `k6` is computed but not used |
| OrdinaryDifferential.FehlbergWeightsSumToOne | sources/analysis.cs:1599 | the fourth-order weights 25/216, 1408/2565, 2197/4104 and -1/5 sum to 1 |
| OrdinaryDifferential.LineIsAffine | sources/analysis.cs:1515-1521 | the chain of increments `K·(x[i]-x[i-1])` is `y0 + K·(x[i]-x[0])` |
| OrdinaryDifferential.ConstantSlopeOnLine | sources/analysis.cs:1515-1521 | for `f ≡ c`, every state of every one-step method follows the chain of increments |
| OrdinaryDifferential.ConstantSlopeIsExact | sources/analysis.cs:1509-1604 | for `f ≡ c`, all four methods give `y0 + c·(x[i]-x[0])` at every grid point, whatever the spacing |
| OrdinaryDifferential.PrefixStates | sources/analysis.cs:1387-1391 | solving on the first `k` grid points gives the same states there as solving on the whole grid |
| OrdinaryDifferential.StartStates | sources/analysis.cs:1387-1394 | the one-step run on `x[0..order]` gives the states at `x[1..order]` of the full run |
| OrdinaryDifferential.StateAtNext | sources/analysis.cs:1515-1521 | the state at `x[i+1]` is one step from the state at `x[i]` with `h = x[i+1]-x[i]` |
| OrdinaryDifferential.PowerMatrix | sources/analysis.cs:1487-1492 | `A` is `order × order` with `A[i, j] = j^i` |
| OrdinaryDifferential.AlternatingRight | sources/analysis.cs:1493 | `c[i] = (-1)^i / (i+1)` for `i < order` |
| OrdinaryDifferential.AlternatingRightSigns | sources/analysis.cs:1493 | `(i+1)·c[i]` is `1` for even `i` and `-1` for odd `i` |
| OrdinaryDifferential.PowerRow | sources/analysis.cs:1489-1492 | the inner loop builds row `i` of `A` |
| OrdinaryDifferential.GetCoefficients | sources/analysis.cs:1481-1498 | the loops build `A` and `c` and hand them to the linear solver |
| OrdinaryDifferential.MultistepPrefix | sources/analysis.cs:1398-1410 | a longer Adams–Bashforth run extends a shorter one |
| OrdinaryDifferential.UniformSteps | sources/analysis.cs:1404-1405 | a uniform grid has every gap equal to `h` |
| OrdinaryDifferential.MultistepSumOfConstant | sources/analysis.cs:1400-1407 | on a uniform grid with `f ≡ K`, one Adams–Bashforth sum is the last value plus `h·K·Σc[j]` |
| OrdinaryDifferential.MultistepExactOnConstant | sources/analysis.cs:1398-1410 | when the weights sum to 1 and the start values lie on the line, every value stays on the line |
| OrdinaryDifferential.NextOnLine | sources/analysis.cs:1400-1409 | one more value of the recurrence stays on the line |
| OrdinaryDifferential.AdamsBashforthExactOnConstant | sources/analysis.cs:1371-1413 | on a uniform grid with `f ≡ K` and weights summing to 1, Adams–Bashforth returns `y0 + K·(x[i+1]-x[0])` at every point |
| OrdinaryDifferential.MultistepLoop | sources/analysis.cs:1400-1407 | the inner `j` loop computes one Adams–Bashforth sum |
| OrdinaryDifferential.MultistepFill | sources/analysis.cs:1398-1410 | the outer loop fills `y` with the recurrence from the start values |
| OrdinaryDifferential.AdamsBashforth | sources/analysis.cs:1371-1417 | unless `1 < order < x.Length-1` it is the one-step solver; otherwise it returns `x.Length-1` values whose first `order` are the one-step states at `x[1..order]` and whose rest follow the recurrence with the solved weights |
| OrdinaryDifferential.Differential.constructor | sources/analysis.cs:1292-1295 | stores the method |
| OrdinaryDifferential.Differential.SetMethodType | sources/analysis.cs:1299-1309 | the `MethodType` setter replaces the method |
| OrdinaryDifferential.Differential.Compute | sources/analysis.cs:1317-1334 | dispatches to the one-step solver of the method, with RK2 by default |
| OrdinaryDifferential.Differential.ComputeMultistep | sources/analysis.cs:1371-1417 | `Compute(function, x, y0, order)` is `AdamsBashforth` with the object's method |
| Interpolating.LastCell | sources/analysis.cs:1853-1859 | the cell whose segment `linear` returns is the last cell among the first `k` that holds `v`; it is `None` iff no cell holds `v` |
| Interpolating.LineAtStart | sources/analysis.cs:1857 | the segment formula gives `y[i]` at `x[i]` |
| Interpolating.LineBetween | sources/analysis.cs:1857 | inside a cell the segment lies between its two end values |
| Interpolating.InterpolateLinear | sources/analysis.cs:1848-1861 | `linear` returns the segment of the last matching cell, 0 when none matches, and `IndexOutOfRange` when a matching cell reaches past `y` |
| Interpolating.OnlyCell | sources/analysis.cs:1855 | on increasing nodes a point lies in at most one cell |
| Interpolating.LinearAtNode | sources/analysis.cs:1848-1861 | on increasing nodes `linear` returns `y[k]` at every node `x[k]` except the last |
| Interpolating.LinearOutside | sources/analysis.cs:1848-1861 | below `x[0]`, or at or above the last node, `linear` returns 0: the last node itself lies in no half-open cell |
| Interpolating.LinearBetween | sources/analysis.cs:1848-1861 | the result is 0 when no cell matches, and otherwise lies between the values at the ends of the matching cell |
| Interpolating.BlendAtCorner | sources/analysis.cs:1883-1886 | the four-term bilinear formula gives the corner value `z[i, j]` at `(x[i], y[j])` |
| Interpolating.InterpolateBilinear | sources/analysis.cs:1871-1891 | `bilinear` returns the patch of the last matching cell and 0 when none matches; it throws exactly when a matching cell reaches past `z` |
| Interpolating.BilinearRow | sources/analysis.cs:1879-1888 | the inner loop keeps the previous value unless `x`-cell `i` matches, and then takes the patch of the last matching `y`-cell, or throws when it does not fit |
| Interpolating.CellPatch | sources/analysis.cs:1883-1886 | the source's formula is the area-weighted blend of the four corners |
| Interpolating.BilinearAtNode | sources/analysis.cs:1871-1891 | on increasing grids `bilinear` returns `z[i, j]` at every node except those in the last row and column |
| Interpolating.BilinearOutside | sources/analysis.cs:1871-1891 | outside `[x[0], x[last]) × [y[0], y[last])` `bilinear` returns 0 |
| Interpolating.InterpolateLagrange | sources/analysis.cs:1899-1919 | `lagra` throws iff `y` is empty or shorter than `x`; it is non-finite iff two nodes coincide; otherwise it is the Lagrange sum |
| Interpolating.LagrangeRow | sources/analysis.cs:1908-1915 | the inner loop computes term `i`, `y[i]·Π_{j≠i}(v-x[j])/(x[i]-x[j])`, and stops at a repeated node |
| Interpolating.LagrangeTermVanishes | sources/analysis.cs:1913 | term `i` vanishes at every other node |
| Interpolating.LagrangeTermAtOwnNode | sources/analysis.cs:1908-1915 | term `i` is `y[i]` at its own node |
| Interpolating.LagrangeSumAtNode | sources/analysis.cs:1906-1917 | the sum of the first `m` terms at node `x[k]` is `y[k]` when `k < m` and 0 otherwise |
| Interpolating.LagrangeAtNode | sources/analysis.cs:1899-1919 | for distinct nodes, `lagra` at node `x[k]` returns exactly `y[k]` |
| Interpolating.ComplexAlgorithm | sources/analysis.cs:1823-1836 | the complex `Compute` runs Newton and barycentric as the real one does, but has no linear case: `Linear`, its default, runs Lagrange |
| Interpolating.NewtonTable | sources/analysis.cs:1938-1944 | the Newton coefficients are the divided differences `f[x_0..x_j]`, one per node |
| Interpolating.DividedDifferences | sources/analysis.cs:1938-1944 | the in-place passes leave `tarray[p] = f[x_0..x_p]` exactly when the nodes are distinct |
| Interpolating.DifferencePass | sources/analysis.cs:1940-1943 | pass `i`, running `j` downwards, widens each `tarray[j]` with `j > i` by one node and keeps the rest |
| Interpolating.InterpolateNewton | sources/analysis.cs:1927-1951 | `newto` throws iff there are no nodes or `y` is shorter than `x`; it is non-finite iff two nodes coincide; otherwise it is the Newton form |
| Interpolating.EvaluateHorner | sources/analysis.cs:1945-1949 | the closing loop evaluates Horner's scheme from the top coefficient down |
| Interpolating.HornerTail | sources/analysis.cs:1946-1949 | the Horner tail from `i` on, times the basis up to `i`, completes the Newton sum |
| Interpolating.HornerIsNewtonSum | sources/analysis.cs:1945-1949 | Horner's nested form equals the Newton sum `Σ t[j]·Π_{m<j}(v-x[m])` |
| Interpolating.NewtonAtFirstNode | sources/analysis.cs:1927-1951 | the Newton form returns `y[0]` at `x[0]` |
| Interpolating.DifferencesOfConstant | sources/analysis.cs:1942 | for constant data every divided difference of two or more nodes is 0 |
| Interpolating.HornerOfZeros | sources/analysis.cs:1946-1949 | Horner's scheme over zero coefficients is 0 |
| Interpolating.NewtonReproducesConstants | sources/analysis.cs:1927-1951 | for distinct nodes and constant data `c`, `newto` returns `c` everywhere |
| Interpolating.NodeProduct | sources/analysis.cs:1971-1978 | the product over the other nodes is non-zero when node `i` is distinct from them |
| Interpolating.Weights | sources/analysis.cs:1969-1980 | the weights loop succeeds iff the nodes are distinct, and then `weights[i] = 1/Π_{j≠i}(x[i]-x[j])`, or 0 for a single node, which is never assigned |
| Interpolating.WeightRow | sources/analysis.cs:1971-1979 | the inner loop for node `i` sets only `weights[i]`, reassigning it after each factor |
| Interpolating.InterpolateBarycentric | sources/analysis.cs:1959-1989 | `baryc` throws iff `y` is shorter than `x`; otherwise it is `bc1/bc2`, non-finite for repeated nodes, a query at a node or `bc2 = 0` |
| Interpolating.DenominatorOfOneNode | sources/analysis.cs:1982-1987 | with one node `bc2` stays 0 |
| Interpolating.BarycentricNeedsTwoNodes | sources/analysis.cs:1959-1989 | with fewer than two nodes `baryc` always returns NaN |
| Interpolating.NumeratorOfConstant | sources/analysis.cs:1982-1987 | for constant data `c`, `bc1 = c·bc2` |
| Interpolating.BarycentricReproducesConstants | sources/analysis.cs:1959-1989 | wherever `baryc` is finite it reproduces constant data |
| Interpolating.Interpolation.constructor | sources/analysis.cs:1757-1760 | stores the method |
| Interpolating.Interpolation.SetMethodType | sources/analysis.cs:1764-1774 | the `MethodType` setter replaces the method |
| Interpolating.Interpolation.ComputeGrid | sources/analysis.cs:1787-1790 | the grid `Compute` is always `bilinear` |
| Interpolating.Interpolation.Compute | sources/analysis.cs:1798-1815 | dispatches on the method, `linear` by default, with each method's error and NaN cases |
| LeastSquares.EvaluatePolynomial | sources/analysis.cs:2693-2703 | the scalar `Polynomial` is `Σ c[i]·x^i` with the lowest degree first |
| LeastSquares.PolyValueIsNested | sources/analysis.cs:2693-2703 | the running-power sum equals the nested form `c[0] + x·(c[1] + x·(…))` |
| LeastSquares.LowestDegreeFirst | sources/analysis.cs:2693-2703 | the value at 0 is `c[0]`, and dropping `c[0]` divides the rest by `x` |
| LeastSquares.EvaluateAll | sources/analysis.cs:2710-2720 | the array `Polynomial` evaluates the polynomial at every abscissa and keeps the length |
| LeastSquares.SummaryPow | sources/analysis.cs:2753-2763 | `SummaryPow(v, pow)` is `Σ v[i]^pow` |
| LeastSquares.SummaryCrossPow | sources/analysis.cs:2772-2782 | `SummaryPow(x, y, powx, powy)` is `Σ x[i]^powx·y[i]^powy`, and throws `IndexOutOfRange` exactly when `y` is shorter than `x` |
| LeastSquares.NormalMatrix | sources/analysis.cs:2727-2746 | the normal equations form an `m × (m+1)` matrix whose left block is symmetric |
| LeastSquares.NormalMatrixHankel | sources/analysis.cs:2736-2742 | an entry of the left block depends only on `i + j` |
| LeastSquares.PowerSumOfZeroth | sources/analysis.cs:2738 | the zeroth power sum counts the samples |
| LeastSquares.CrossPowerSumIsSum | sources/analysis.cs:2741 | the first right-hand side is the plain sum of `y` |
| LeastSquares.NormalMatrixCorners | sources/analysis.cs:2727-2746 | the top-left entry is `n` and the top right-hand side is `Σ y` |
| LeastSquares.NormalRow | sources/analysis.cs:2736-2742 | the inner loop builds row `i` of the normal equations, and throws exactly when `y` is longer than `x` |
| LeastSquares.Coefficients | sources/analysis.cs:2727-2746 | `Coefficients` hands the normal equations of `max(iterations, 1)` unknowns to the solver; it throws `Overflow` exactly when that count is `int.MaxValue` (the unchecked `m + 1` of the allocation wraps negative), and otherwise `IndexOutOfRange` exactly when `y` is longer than `x` |
| LeastSquares.FitSizeCases | sources/analysis.cs:2411 | a fit solves for `power + 1` coefficients, 2 below power 1, and 1 at `int.MaxValue`, where the unchecked `power + 1` wraps below 1; its system is too large to allocate exactly at `power == int.MaxValue - 1` |
| LeastSquares.FitErrorIsRatio | sources/analysis.cs:2789-2799 | `Error` is symmetric and, for non-negative variances that are not both 0, lies in `[0, 1]`, is 1 iff they are equal, and is the smaller variance over the larger |
| LeastSquares.FitPolynomial | sources/analysis.cs:2408-2417 | `poly` fits `FitSize(power)` coefficients; it throws `Overflow` exactly at `power == int.MaxValue - 1`, and otherwise `IndexOutOfRange` exactly when `y` is longer than `x` |
| LeastSquares.FitLogarithmic | sources/analysis.cs:2448-2468 | `logc` is the polynomial fit against `log x`; it throws `Overflow` exactly at `power == int.MaxValue - 1`, and otherwise `IndexOutOfRange` exactly when `y` is longer than `x` |
| LeastSquares.FitExponential | sources/analysis.cs:2510-2536 | `expn` is the exponential of the polynomial fit of `log y`; it throws `IndexOutOfRange` exactly when `x` is longer than `y`, and otherwise `Overflow` exactly at `power == int.MaxValue - 1` |
| LeastSquares.FitPower | sources/analysis.cs:2584-2612 | `powr` is the exponential of the polynomial fit of `log y` against `log x`; it throws `IndexOutOfRange` exactly when `x` is longer than `y`, and otherwise `Overflow` exactly at `power == int.MaxValue - 1` |
| LeastSquares.LogFitIsPolyFitOfLog | sources/analysis.cs:2448-2468 | the logarithmic fit is the polynomial fit on the abscissas `log x` |
| LeastSquares.ExpFitIsPolyFitOfLog | sources/analysis.cs:2510-2536 | the exponential fit has the coefficients of the polynomial fit of `log y`, and its values are their exponentials |
| LeastSquares.PowerFitIsExpFitOfLog | sources/analysis.cs:2584-2612 | the power fit is the exponential fit on the abscissas `log x` |
| LeastSquares.Approximation.constructor | sources/analysis.cs:2141-2145 | stores the power and the method |
| LeastSquares.Approximation.Create | sources/analysis.cs:2141-2145 | construction goes through the `Power` setter, so it fails with `InvalidArgument` exactly when the power is below 1 |
| LeastSquares.Approximation.SetPower | sources/analysis.cs:2149-2162 | the `Power` setter rejects a value below 1 and changes nothing; otherwise it stores the value |
| LeastSquares.Approximation.SetMethodType | sources/analysis.cs:2166-2176 | the `MethodType` setter replaces the method and keeps the power |
| LeastSquares.Approximation.Compute | sources/analysis.cs:2185-2206 | dispatches on the method, power fit by default; it succeeds exactly when the lengths suit the chosen fit and `power != int.MaxValue - 1`, and otherwise throws whichever error the fit meets first: the allocation for the polynomial and logarithmic fits, the read of `y` for the others |
| PolynomialRoots.LeadingZeros | sources/analysis.cs:3055-3062 | the search stops at the first non-zero coefficient, and every coefficient before it is 0 |
| PolynomialRoots.Normalised | sources/analysis.cs:3071-3080 | the companion input is absent iff all coefficients are 0; otherwise it holds the coefficients after the leading one, divided by it |
| PolynomialRoots.CompanionInput | sources/analysis.cs:3052-3080 | the skipping loop and the scaling loop produce exactly the normalised coefficients |
| PolynomialRoots.RootsOf | sources/analysis.cs:3047-3086 | `Compute(polynomial)` returns no roots for the zero polynomial, and otherwise the eigenvalues of the companion matrix of the normalised coefficients |
| PolynomialRoots.NormalisedLength | sources/analysis.cs:3064-3073 | normalising fails iff every coefficient is 0, and drops the leading zeros and the leading coefficient |
| PolynomialRoots.NormalisedKeepsRoots | sources/analysis.cs:3047-3086 | the input polynomial is its leading coefficient times the monic polynomial handed to the companion matrix, so the two have the same roots |
| PolynomialRoots.MultiplyPass | sources/analysis.cs:3108-3119 | pass `j` of the outer loop multiplies the coefficients of the first `j` factors by `(z - roots[j])` in place |
| PolynomialRoots.ExpandInPlace | sources/analysis.cs:3100-3120 | after the outer loop `p` holds the coefficients of `Π (z - roots[j])`, highest degree first |
| PolynomialRoots.PolynomialOf | sources/analysis.cs:3094-3124 | `Compute(roots)` returns the real parts of those `length + 1` coefficients |
| PolynomialRoots.ExpandIsMonic | sources/analysis.cs:3106 | the leading coefficient is 1 |
| PolynomialRoots.RealRootsRealCoefficients | sources/analysis.cs:3123 | for real roots every coefficient is real, so taking real parts loses nothing |
| PolynomialRoots.ExpandEvaluates | sources/analysis.cs:3094-3124 | the expanded polynomial evaluates to `Π (z - roots[j])` everywhere |
| PolynomialRoots.RootsAreRoots | sources/analysis.cs:3094-3124 | every given root is a zero of the returned polynomial |
| WaveletSplit.Levels2D | sources/Wavelet/WaveletDecomposition.cs:95 | the matrix level count is the smallest of `⌊log2 N⌋`, the transform's levels and the column count `M` itself |
| WaveletSplit.CopySlice | sources/Wavelet/WaveletDecomposition.cs:56-59 | the inner copy loop takes `count` entries of `B` from `k` |
| WaveletSplit.Forward1D | sources/Wavelet/WaveletDecomposition.cs:40-65 | an empty signal overflows the level count; otherwise piece `i` is `B[length >> (n-i+1) .. length >> (n-i)]`, piece 0 starting at 0, with `n + 1` pieces |
| WaveletSplit.PieceSizes | sources/Wavelet/WaveletDecomposition.cs:49-62 | piece 0 has `length >> n` entries and piece `i` has `(length >> (n-i)) - (length >> (n-i+1))` |
| WaveletSplit.ConcatPrefix | sources/Wavelet/WaveletDecomposition.cs:49-62 | the first `i + 1` pieces, laid end to end, are `B` up to bound `i` |
| WaveletSplit.ConcatPieces | sources/Wavelet/WaveletDecomposition.cs:40-65 | the pieces partition the transformed signal: laid end to end they give it back |
| WaveletSplit.Backward1D | sources/Wavelet/WaveletDecomposition.cs:71-84 | `Backward` merges the pieces in index order and applies the inverse transform |
| WaveletSplit.MergedIsConcat | sources/Wavelet/WaveletDecomposition.cs:78-81 | with `Merge` as concatenation the merging loop lays the pieces end to end |
| WaveletSplit.RoundTrip1D | sources/Wavelet/WaveletDecomposition.cs:40-84 | `Backward(Forward(A))` is the inverse transform of the transform of `A`, and overflows for an empty `A` |
| WaveletSplit.Load | sources/Wavelet/WaveletDecomposition.cs:96 | the transformed matrix becomes the two-dimensional array the slicing then works on; the copy stands for the fresh array the transform is taken to return |
| WaveletSplit.CopyBlock | sources/Wavelet/WaveletDecomposition.cs:107-116 | a pass copies the top-left `count1 × count2` block out of `B` into a fresh piece and zeroes it in `B`, leaving the rest of `B` as it was |
| WaveletSplit.TakePiece | sources/Wavelet/WaveletDecomposition.cs:100-120 | pass `i` yields the cells of the top-left block of size `N >> (n-i)` that no smaller pass took, the others being 0, and extends the zeroed block |
| WaveletSplit.Forward2D | sources/Wavelet/WaveletDecomposition.cs:90-123 | an empty matrix overflows the level count; otherwise there are `n + 1` fresh, distinct pieces, piece `i` of size `(N >> (n-i)) × (M >> (n-i))`, each cell as the zeroing passes leave it, because `k1` and `k2` stay 0 |
| WaveletSplit.WriteBlock | sources/Wavelet/WaveletDecomposition.cs:142-148 | one backward pass overwrites the top-left block of `A` with the values piece `b` had before the pass and keeps the rest, also when `b` is `A` itself |
| WaveletSplit.Backward2D | sources/Wavelet/WaveletDecomposition.cs:129-152 | `Backward` throws for no pieces or for a piece larger than the last one; otherwise every cell of the last piece, which is written in place, takes its value from the lowest-index piece that covers it (a piece that is the last array itself changes nothing), and the inverse transform of the result is returned |
| WaveletSplit.OwnerStep | sources/Wavelet/WaveletDecomposition.cs:136-149 | the downward loop leaves each cell to the smallest covering piece, one step at a time |
| WaveletSplit.OwnerIsFirst | sources/Wavelet/WaveletDecomposition.cs:136-149 | no piece before a cell's owner covers the cell |
| WaveletSplit.OwnerCellIsTransform | sources/Wavelet/WaveletDecomposition.cs:100-120 | the piece that owns a cell after the forward split holds the transformed value of that cell |
| WaveletSplit.RoundTrip2D | sources/Wavelet/WaveletDecomposition.cs:90-152 | `Backward(Forward(A))` is the inverse transform of the transform of `A`, and overflows for an empty matrix |
| LaplacianPyramid.Pyramid | sources/Transform/LaplacianPyramidTransform.cs:96-103 | the pyramid has `nlev` levels: level `i < nlev-1` is Gaussian level `i` minus the upsampled Gaussian level `i+1`, and the last level is the last Gaussian level |
| LaplacianPyramid.Build | sources/Transform/LaplacianPyramidTransform.cs:93-104 | the loop of `Forward`, with `J` the running Gaussian level, builds exactly that pyramid |
| LaplacianPyramid.Restore | sources/Transform/LaplacianPyramidTransform.cs:136-144 | `Backward` from its first index `nlev`: an `nlev` outside the pyramid throws; otherwise levels `0..nlev` are recombined from the top down, each level added to the upsampled image rebuilt from the levels above it |
| LaplacianPyramid.AddUndoesSub | sources/Transform/LaplacianPyramidTransform.cs:141 | the reconstruction step undoes the subtraction of the forward step |
| LaplacianPyramid.RebuildRecoversGaussian | sources/Transform/LaplacianPyramidTransform.cs:89-145 | rebuilding from level `k` of a pyramid gives back Gaussian level `k`, whatever `downsample` and `upsample` do, as long as `add` undoes `sub` |
| LaplacianPyramid.FromGaussianLevels | sources/Transform/LaplacianPyramidTransform.cs:250-262 | the pyramid built from a Gaussian pyramid has as many levels |
| LaplacianPyramid.RebuildFromGaussian | sources/Transform/LaplacianPyramidTransform.cs:250-262 | rebuilding from level `k` of a pyramid built from Gaussian levels `g` gives back `g[k]` |
| LaplacianPyramid.LaplacianPyramidTransform.Default | sources/Transform/LaplacianPyramidTransform.cs:25-29 | the default transform has `int.MaxValue` levels and radius 2 |
| LaplacianPyramid.LaplacianPyramidTransform.constructor | sources/Transform/LaplacianPyramidTransform.cs:35-39 | stores a positive level count and the radius |
| LaplacianPyramid.LaplacianPyramidTransform.Create | sources/Transform/LaplacianPyramidTransform.cs:35-39 | construction fails exactly when the level count is not positive, because it goes through the `Levels` setter |
| LaplacianPyramid.LaplacianPyramidTransform.SetLevels | sources/Transform/LaplacianPyramidTransform.cs:43-56 | the `Levels` setter rejects a value that is not positive and changes nothing; otherwise it stores the value |
| LaplacianPyramid.LaplacianPyramidTransform.SetRadius | sources/Transform/LaplacianPyramidTransform.cs:60-70 | the `Radius` setter stores any value |
| LaplacianPyramid.LaplacianPyramidTransform.ForwardOfSize | sources/Transform/LaplacianPyramidTransform.cs:111-128 | a size of 0 overflows the array length, a size of 1 gives `nlev = 0` and an index out of range, and a larger size gives the pyramid with `min(⌊log2 size⌋, levels) ≥ 1` levels |
| LaplacianPyramid.LaplacianPyramidTransform.Forward2D | sources/Transform/LaplacianPyramidTransform.cs:89-105 | the matrix `Forward` succeeds iff both sides are at least 2, sizes its pyramid by the smaller side, and puts the coarsest Gaussian level on top |
| LaplacianPyramid.LaplacianPyramidTransform.Forward1D | sources/Transform/LaplacianPyramidTransform.cs:111-128 | the array `Forward` succeeds iff the length is at least 2 |
| LaplacianPyramid.LaplacianPyramidTransform.Backward | sources/Transform/LaplacianPyramidTransform.cs:134-145 | the matrix `Backward` fails exactly for an empty pyramid, and otherwise rebuilds from the top level down |
| LaplacianPyramid.LaplacianPyramidTransform.Backward1DAsWritten | sources/Transform/LaplacianPyramidTransform.cs:151-162 | the array `Backward`, which starts the shared loop at `nlev = pyramid.Length`, throws an index out of range for every pyramid |
| LaplacianPyramid.LaplacianPyramidTransform.RoundTrip2D | sources/Transform/LaplacianPyramidTransform.cs:89-145 | `Backward(Forward(data)) == data` for matrices with both sides at least 2 |
| LaplacianPyramid.LaplacianPyramidTransform.RoundTrip1DAsWritten | sources/Transform/LaplacianPyramidTransform.cs:111-162 | as written, the array round trip never succeeds |
| LaplacianPyramid.LaplacianPyramidTransform.RoundTrip1D | sources/Transform/LaplacianPyramidTransform.cs:111-162 | with the top level read at `Length - 1`, `Backward(Forward(data)) == data` for arrays of length at least 2 |
| LaplacianPyramid.LaplacianPyramidTransform.FromGaussian | sources/Transform/LaplacianPyramidTransform.cs:250-262 | the Gaussian-to-Laplacian `Forward` fails exactly for an empty pyramid, and otherwise keeps the top level and stores the differences below it |
| LaplacianPyramid.LaplacianPyramidTransform.GaussianRoundTrip | sources/Transform/LaplacianPyramidTransform.cs:134-145 | `Backward` of the pyramid built from Gaussian levels gives back the finest level |
| ImagingPoints.WrapIsMod | sources/Imaging/Points.cs:28-29 | 32-bit wrap-around is reduction modulo 2^32 into `[int.MinValue, int.MaxValue]` |
| ImagingPoints.WrapThenAdd | sources/Imaging/Points.cs:205-206 | wrapping after every addition is the same as wrapping once at the end |
| ImagingPoints.SubUndoesAdd | sources/Imaging/Points.cs:19-57 | subtracting a point undoes adding it, wrap-around included |
| ImagingPoints.Add | sources/Imaging/Points.cs:19-34 | `Add` returns a fresh array of the same length whose every point is shifted by `point`, with 32-bit wrap-around |
| ImagingPoints.Sub | sources/Imaging/Points.cs:42-57 | `Sub` returns a fresh array of the same length whose every point is shifted back by `point`, with 32-bit wrap-around |
| ImagingPoints.ShiftRoundTrip | sources/Imaging/Points.cs:19-57 | `Sub(Add(points, p), p)` gives back the original points |
| ImagingPoints.Lowest | sources/Imaging/Points.cs:117-128 | the running minimum, starting at `int.MaxValue`, is at most every coordinate seen |
| ImagingPoints.Highest | sources/Imaging/Points.cs:119-134 | the running maximum, starting at `int.MinValue`, is at least every coordinate seen |
| ImagingPoints.ExtremesAttained | sources/Imaging/Points.cs:122-135 | over a non-empty prefix both extremes are values of the prefix |
| ImagingPoints.GetRectangle | sources/Imaging/Points.cs:114-138 | the loop computes the bounding rectangle: the minimal corner, and extents `max - min` wrapped to 32 bits |
| ImagingPoints.BoundingContainsPoints | sources/Imaging/Points.cs:114-138 | for a non-empty set every point lies between the corner and the maxima, and each bound is attained by some point |
| ImagingPoints.FarCornerIsHighest | sources/Imaging/Points.cs:137 | corner plus extent, wrapped, is the maximum on both axes, even when the extent overflows |
| ImagingPoints.BoundingWithoutOverflow | sources/Imaging/Points.cs:114-138 | when the spread fits in 32 bits, the extents are non-negative and the rectangle contains every point |
| ImagingPoints.BoundingOfNothing | sources/Imaging/Points.cs:114-138 | for no points the rectangle is `(int.MaxValue, int.MaxValue, 1, 1)`, because both extents wrap |
| ImagingPoints.GetSupportedPoint | sources/Imaging/Points.cs:188-191 | the supported point takes `x` from `right` and `y` from `left` |
| ImagingPoints.SupportedIsCorner | sources/Imaging/Points.cs:188-191 | it is a corner of the two points' bounding rectangle, and swapping the points gives the opposite corner |
| ImagingPoints.TruncDivRounds | sources/Imaging/Points.cs:209-210 | C#'s `/` rounds toward zero and is odd in its dividend |
| ImagingPoints.WrappedSumIsWrappedTotal | sources/Imaging/Points.cs:203-207 | the accumulated coordinate is the true sum wrapped to 32 bits |
| ImagingPoints.GetMeanPoint | sources/Imaging/Points.cs:198-213 | no points is a division by zero; otherwise each coordinate is the wrapped sum divided by the count, rounded toward zero |
| ImagingPoints.MeanWithinBounds | sources/Imaging/Points.cs:198-213 | when the sums do not overflow, the mean lies between the smallest and the largest coordinate on each axis |
| BitmapCrop.Range | sources/Imaging/BitmapTransform.cs:121-132 | `Range` returns `x`, `min` or `max`; below `min` it is `min`; on a non-empty range it stays inside and keeps `x` iff `x` is inside |
| BitmapCrop.RangeIsClamp | sources/Imaging/BitmapTransform.cs:121-132 | on a non-empty range `Range` is the usual clamp |
| BitmapCrop.RangeIdempotent | sources/Imaging/BitmapTransform.cs:121-132 | clamping twice is clamping once |
| BitmapCrop.RemainderFits | sources/Imaging/BitmapTransform.cs:100-101 | `width - x` cannot overflow after `x` is clamped |
| BitmapCrop.FixRectangle | sources/Imaging/BitmapTransform.cs:94-104 | the fixed section starts inside the image and ends at or before its edge |
| BitmapCrop.FixKeepsInside | sources/Imaging/BitmapTransform.cs:94-104 | the fixed section lies inside the image, and a section is left unchanged iff it already lies inside |
| BitmapCrop.FixIdempotent | sources/Imaging/BitmapTransform.cs:94-104 | fixing a fixed section changes nothing |
| BitmapCrop.NegativeCornerKeepsExtent | sources/Imaging/BitmapTransform.cs:98-100 | a corner left of the image is moved to 0 without shrinking the width, which is only clamped to the image width |

## Left out

- Floating point: every double is an exact `real`. Rounding, convergence rates and accuracy are not modelled. A NaN or an infinity is modelled only where it comes from a division by zero the source can reach.
- The `Complex` overloads of `Nonlinear`, `Integration`, `Differentation`, `Differential`, `Interpolation`, `Approximation`, `WaveletDecomposition` and `LaplacianPyramidTransform` are modelled once, over reals. Three complex-specific quirks are modelled on their own: the complex root-finding dispatch (`NonlinearSolver.ComplexAlgorithm`), the complex interpolation dispatch, which sends `Linear` to Lagrange (`Interpolating.ComplexAlgorithm`), and the real-part-only sign test (`NonlinearSolver.ComplexSameSide`).
- `Maths.Double`, which the `Eps` setters apply, is not part of this model. The setters take it as the parameter `toUnit`.
- NonlinearSolver.Nonlinear.SetEps and GoldenSection.Optimization.SetEps do not state that the stored tolerance lies in [0, 1], the range the source documents for it (analysis.cs:62 and 363). That range would come from `Maths.Double`, which is not part of this model, so `toUnit` is left unconstrained.
- The default arguments of the constructors are not modelled; each Dafny constructor takes every argument. The defaults are `eps = 1e-8` and `Secant` for `Nonlinear` (analysis.cs:42), `eps = 1e-8` for `Optimization` (:358), `Rectangle` for `Integration` (:466), `RungeKutta4` for `Differential` (:1292), `Lagrange` for `Interpolation` (:1757), and `power = 1` with `Polynomial` for `Approximation` (:2141). Only the parameterless `LaplacianPyramidTransform` constructor is modelled, as `LaplacianPyramid.LaplacianPyramidTransform.Default`.
- The collaborators are parameters, with no contract beyond the shape some proofs need. They are `Matrice.Invert`, `Solve`, `Companion`, `Var` and `Merge`, `EVD`, `Maths.Log`, `Exp` and `Phi`, `GaussianPyramidTransform` and `WaveletTransform`. `Maths.Phi` is the parameter `phi` of the golden-section search, of type `GoldenSection.Ratio`: any real strictly between 1 and 2, which is all its proofs use. `Special.Factorial` and integer powers are computed exactly.
- `Maths.Log2` and the `Math.Log(r)/Math.Log(2)` ratio are modelled as the exact floor of log2. Rounding of the double ratio near powers of two is not captured.
- `LeastSquaresOptions.Equation` and the `equation` out-parameters are not modelled: they are display strings.
- `Window/Blackman.cs` is not modelled: it is a cosine window over collaborators that are not part of this model.
- The drawing in `BitmapTransform` (`Rotate`, `FlipX`/`FlipY`, `Resize`, `ShiftX`/`ShiftY`, `Transparency`, `Merge`, and the `DrawImage` half of `Crop`) is not modelled, nor the `Bitmap` constructor's rejection of a zero-sized section. These are System.Drawing calls.
- `Points.Rotate`, `GetAngle` and `Div` are not modelled: they are trigonometry on doubles.
- ImagingPoints.GetRectangle and ImagingPoints.GetMeanPoint take a sequence rather than an array. They only read it, so aliasing does not arise.
- NumericalDerivative.Differentation.ComputeFunction and ComputeSamples assume that `Matrice.Invert` returns a square matrix of the size it was given.
- NumericalDerivative.Derivative and DerivativeOfSamples take `Special.Factorial`, which `GetCoefficients` calls on the wrapped negative size before the allocation that throws, not to throw itself. `Special.Factorial` is not part of this model.
- LeastSquares.Coefficients does not model running out of memory. The source allocates an `m × (m + 1)` array, which fails long before `m` reaches the sizes where the exponent `j + i` would wrap; the model's exponents are exact.
- PolynomialRoots.RootsOf models `Compute` alone. The `Roots` class (analysis.cs:3006-3041), its `Eps` property set through `Maths.Double` and its default of `1e-16` are not modelled. The tolerance `EVD` uses is part of the parameter `eigen`.
- LaplacianPyramid.RebuildRecoversGaussian, RebuildFromGaussian, LaplacianPyramid.LaplacianPyramidTransform.RoundTrip2D, RoundTrip1D and GaussianRoundTrip assume that `GaussianPyramidTransform.add` undoes `GaussianPyramidTransform.sub` exactly (`add(sub(a, b), b) == a`). With rounding this holds only approximately, and the round trips are proved only under that assumption.
- WaveletSplit.Forward1D, Forward2D, RoundTrip1D and RoundTrip2D assume that the wavelet transform keeps the shape of its input. A shorter result would make the slicing loops throw, and the model does not capture that.
- WaveletSplit.Load assumes that the wavelet transform returns a fresh array. The source keeps the transform's result as it is (WaveletDecomposition.cs:96) and then zeroes entries of it in place (:114), which would change the transform's own data if it returned a shared array; the model copies the result into a new array.
- WaveletSplit.RoundTrip1D assumes that `Matrice.Merge` is concatenation.
- WaveletSplit.Backward2D states the result and the final contents of the last piece only when no piece is too large. When a piece is too large, the source has already written the earlier pieces into the last one before it throws. The model returns the error without stating those partial writes.
- Quadrature.RombergMethod returns `IndexOutOfRange` without describing the table cells written before the throw. The table is local, so nothing outside can observe them.
- OrdinaryDifferential.FehlbergStep does not evaluate the sixth stage `k6`, because the source computes it and then never uses it.
- Interpolating.LinearAtNode, LinearOutside, BilinearAtNode and BilinearOutside are stated for well-shaped inputs: `y` at least as long as `x`, and `z` an `|x| × |y|` matrix. The operations themselves model the error paths of every other input.
- No lemma relates the Newton form and the barycentric form to each other. Each is related to the data on its own: at the first node for Newton, and on constant data for both.
- Interpolating.NewtonAtFirstNode states that the Newton form interpolates the data at `x[0]` only. That it returns `y[k]` at every node `x[k]` of distinct nodes is not proved: it needs the divided-difference recurrence for every suffix of the nodes, which is not modelled.

## Findings

| source | as written | input that shows it | evidently intended | confidence | as-written member | corrected member |
|---|---|---|---|---|---|---|
| sources/Transform/LaplacianPyramidTransform.cs:153-154 | the array `Backward` sets `nlev = pyramid.Length` and reads `pyramid[nlev]`, one past the end | any pyramid, including the one `Forward(double[])` returns for an array of length 2 or more | `nlev = pyramid.Length - 1`, as in the matrix overload at line 136, so that `Backward(Forward(data)) == data` | not executed | LaplacianPyramid.LaplacianPyramidTransform.RoundTrip1DAsWritten | LaplacianPyramid.LaplacianPyramidTransform.RoundTrip1D |
