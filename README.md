# Inverse-CDF sampling from an unnormalised discrete distribution

This project models `sampleDiscrete` from `utils.py`, a helper in a collection
of Bayesian topic-model analysis scripts. Given a vector of unnormalised
weights `p` and an optional uniform number `ran`, it does the following:

1. It sums the weights to get the normalisation constant.
2. It takes `ran or np.random.rand()` as the uniform number.
3. It scales that number by the sum to get a target `r`.
4. It walks the running prefix sum from index 0 and returns the first index
   whose cumulative mass reaches `r`.

The model is one Dafny module, `Utils` in `utils.dfy`:

- `Sum` and `Prefix` are the specification functions. `Sum` adds a sequence
  from the left, and `Prefix(p, i)` is the cumulative mass `p[0] + … + p[i]`.
- `Normalization(p)` is `normalization_constant`, the total mass `Sum(p)`.
- `UniformNumber` is the draw the source actually uses. The fresh number from
  numpy's global generator is the parameter `rand`.
- `Target(p, u)` is the target `r = uniform_number * normalization_constant`.
  Every contract of `SampleDiscrete` is stated in terms of it.
- `SampleDiscrete` is the method. It keeps the source's `while` loop over the
  index `i` and the accumulator `a`, and its invariant is `a == Prefix(p, i)`.
- The loop's termination measure is `|p| - 1 - i`. So the loop runs at most
  `|p| - 1` times when it returns an index, and the number of iterations
  equals the returned index.

The source checks nothing about its input. It raises `IndexError` at `p[0]`
when the vector is empty. It also raises `IndexError` at `p[len(p)]` when no
cumulative mass reaches the target. The model therefore has no precondition
and returns `Err(IndexError)` in exactly those cases. Its postcondition says
the following:

- The call succeeds exactly when some prefix reaches the target.
- On success, the returned index is the least index whose prefix reaches the
  target. This is the generalised inverse CDF.
- When the total is positive and the draw is at most 1, the call always
  succeeds with an index inside the vector.

A caller might expect stricter behaviour than the code gives. The model
follows the code:

- An empty vector is not rejected up front. The code raises `IndexError` at
  `p[0]`, and so does the model.
- Weights that are all zero are not rejected. The code returns index 0 for
  any draw, because the target is then 0 and `p[0] >= 0`. The lemma
  `ZeroMassSelectsFirst` states this.
- An explicit draw of `0.0` is not guaranteed to select index 0. `ran or …`
  treats a given 0 as absent and uses a fresh random number instead, which
  selects whatever index that number selects (index 0 included).
  `UniformNumber` states this.
- A walk that would run past the end is not bounded. The code raises
  `IndexError` at `p[len(p)]`, and so does the model.

## Model

| member | source | states |
|---|---|---|
| `Utils.SampleDiscrete` | utils.py:11-25 | With no precondition: the result is Ok exactly when some cumulative mass reaches `r = Target(p, u)`, else IndexError. An Ok index is the least one whose prefix reaches `r`. A positive total with a draw of at most 1 always gives Ok with an index below `|p|`. |
| `Utils.Sum` | utils.py:17 | The normalisation constant is non-negative when every weight is. `Normalization(p)`, the alias the target contracts use, is `Sum(p)`. |
| `Utils.Target` | utils.py:19 | The draw used, scaled by the total mass. A draw of 0 or a total of 0 gives target 0, and a draw of 1 gives the total. |
| `Utils.TargetInRange` | utils.py:17-19 | With a positive total, a draw in `[0, 1)` gives a target in `[0, Normalization(p))`. |
| `Utils.UniformNumber` | utils.py:18 | A given nonzero `ran` is used as is. `None`, or an explicit 0, falls back to the fresh random number. |
| `Utils.PrefixFirst` | utils.py:20-21 | The accumulator starts at the cumulative mass through index 0, which is `p[0]`. |
| `Utils.PrefixStep` | utils.py:22-24 | One step of the walk adds `p[i+1]` to the cumulative mass, which keeps the invariant `a == Prefix(p, i)`. |
| `Utils.PrefixLast` | utils.py:17-24 | The cumulative mass through the last index equals the normalisation constant. |
| `Utils.PrefixMonotone` | utils.py:22-24 | With non-negative weights, the cumulative mass never decreases along the vector. |
| `Utils.TargetReached` | utils.py:17-24 | With a positive total and a draw of at most 1, the target is at most the total, and some index reaches it. So the walk never reads past the end. |
| `Utils.SelectedIffInInterval` | utils.py:13-15 | With non-negative weights and any target `r`, index `i` is returned exactly when `r <= Prefix(p, i)` and, for `i > 0`, `Prefix(p, i-1) < r`. For `i > 0` that interval has length `p[i]`; for `i == 0` it has no lower end, and `Prefix(p, 0) == p[0]`. |
| `Utils.DrawSelectsInterval` | utils.py:13-25 | With non-negative weights, a positive total and a draw in `[0, 1)`, the target lies in `[0, Normalization(p))`. Index 0 is returned exactly for targets in `[0, p[0]]`, and index `i > 0` exactly for targets in `(Prefix(p, i-1), Prefix(p, i)]`. Each interval has length `p[i]`, so a uniform draw picks `i` with probability `p[i] / Normalization(p)`. |
| `Utils.InverseCdfUnique` | utils.py:11-25 | At most one index is the least one reaching `r`, so the sample is determined by the weights and the draw. |
| `Utils.FirstWeightCoversTarget` | utils.py:20-22 | Whenever `r <= p[0]`, index 0 is returned. |
| `Utils.SingleElementSelectsZero` | utils.py:17-25 | A one-element vector with positive weight and a draw of at most 1 always gives index 0. |
| `Utils.ZeroMassSelectsFirst` | utils.py:17-22 | Non-negative weights that sum to 0 are not rejected: index 0 is returned for any draw. |
| `Utils.ZeroWeightNeverSelected` | utils.py:22-24 | An index after the first whose weight is 0 is never returned, because its prefix equals the previous one. |
| `Utils.MonotoneInTarget` | utils.py:19-24 | A larger target never gives a smaller index. |
| `Utils.MonotoneInDraw` | utils.py:18-24 | For fixed weights with a non-negative total, a larger draw never gives a smaller index. |

## Left out

- Floating point: `np.sum` and `a += p[i]` round in IEEE doubles. The model
  uses exact reals, so its bounds result holds under exact arithmetic only.
  Rounding drift that pushes `r` above the last prefix is not modelled.
- `np.random.rand()`: the global random source becomes the parameter `rand`.
  That it lies in `[0, 1)` is a hypothesis of `TargetInRange` and
  `DrawSelectsInterval`. The source calls the generator only when `ran` is
  absent or 0, so numpy's global state advances only then; the model does not
  capture that side effect.
- The sum order: `np.sum` may add pairwise. Over exact reals the order does
  not matter, so `Sum` adds from the left.
- numpy array semantics: `p` is a plain sequence of reals. Negative indexing
  and broadcasting play no part in the walk.
- The statistical frequency property is not modelled: the model has no
  probability measure. Instead, `SelectedIffInInterval` states the interval of
  targets that selects each index, and `DrawSelectsInterval` ties those
  intervals of targets to draws in `[0, 1)`.
- `load_ml` (utils.py:6-8) reads a `.mat` file through scipy. That is file
  I/O through a foreign call.
- `barplot` and `barplot_reverse` (utils.py:28-64) render charts with
  matplotlib. They have no logic beyond slicing.
