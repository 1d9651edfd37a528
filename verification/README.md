# StarModel bookkeeping, in Dafny

This project models the bookkeeping layer of the `StarModel` and
`StarModelGroup` classes of the isochrones package (`isochrones/starmodel.py`).
A star model fits one or more stellar systems. Each system has `n` member
stars, and all parameters live in one flat vector.

The model covers:

- **Parameter layout** (`Layout`). The vector is cut into one segment per
  system, in system order. A segment reads `[mass_0 .. mass_{n-1}, age, feh,
  distance, AV]` and has length `n + 4`. The per-system member counts are a
  sequence of naturals. The model has `n_params`, the offset of each segment,
  decoding a vector into per-system parameters (as `lnprior` and
  `_make_samples` read it) and encoding it back.
- **Bounds table** (`Bounds`). It maps a parameter name to `(min, max)`.
  Mass, feh and age start unresolved. The first `bounds(prop)` fills them
  from the isochrone grid's range and stores the result. q, distance and AV
  have fixed defaults, and the `maxAV` keyword overrides AV. `set_bounds`
  rejects a value that is not a pair.
- **Log-prior and log-posterior** (`Posterior`). The log value is an
  extended real, `NegInf | Fin(v)`. The prior densities, the natural
  logarithm and the likelihood of the observation tree are function-valued
  parameters. `LnPrior` walks the systems as `lnprior` does and stops
  at the same points, reading the bounds from a snapshot of the table. A system with no member stars runs its shared checks
  and then raises where `lnprior` reads its primary mass. A separate
  reference definition lists every density the prior evaluates.
  `LnPriorExact` ties the two together for systems of at least one star.
- **Exchange of secondaries** (`Secondaries`). No order is imposed among
  the secondaries of a system.
- **Unit-cube transform** (`CubeTransform`). `mnest_prior` is an in-place
  loop over the cube, modelled as a method on a sequence with loop
  invariants.
- **Topology enumeration** (`Topology`). Covers `N_options`,
  `index_options` and `StarModelGroup.model_options`: Cartesian powers in
  `itertools.product` order, filtered and then paired.

Where a Python call can raise, the model returns an error value:
`PriorResult.Raised` (a short vector, a zero primary mass under a ratio,
or a system without members), `Lookup.Failed`, `SetStatus.Rejected`, or
`None` from `Optional`.

## Model

| member | source | states |
|---|---|---|
| Layout.NParams | isochrones/starmodel.py:414-419 | `n_params`. `CountParams` and `NParamsClosedForm` state its meaning: the total number of stars plus four per system, the length of the segmented layout. |
| Layout.CountParams | isochrones/starmodel.py:414-419 | Adding `4 + n` per system gives the number of stars plus four per system. This equals the length of the segmented layout. |
| Layout.NParamsClosedForm | isochrones/starmodel.py:414-419 | The vector length is the total number of stars plus 4 times the number of systems. |
| Layout.OffsetStep | isochrones/starmodel.py:406 | Each segment starts where the previous one ends, `n + 4` slots later. |
| Layout.SegmentInside | isochrones/starmodel.py:366-383 | Every system's segment lies inside the first `n_params` slots. |
| Layout.Decode | isochrones/starmodel.py:366-383 | Decoding gives one entry per system. System s reads its masses from slots `Offset(s) .. Offset(s)+n-1` and age, feh, distance, AV from the next four slots. |
| Layout.DecodeEncode | isochrones/starmodel.py:682-698 | Decoding an encoded vector gives back every system's masses and shared parameters. |
| Layout.EncodeDecode | isochrones/starmodel.py:682-698 | Encoding the decoded systems gives back exactly the first `n_params` slots of the vector. |
| Layout.CountsOfDecode | isochrones/starmodel.py:682-698 | Each decoded system has as many masses as its count. |
| Layout.SlotParamInSegment | isochrones/starmodel.py:426-430 | Slot `Offset(s)+j` holds a mass for `j < n`. Otherwise it holds the `(j-n)`-th of age, feh, distance, AV. |
| Layout.SharedSlot | isochrones/starmodel.py:368 | The k-th shared value of decoded system s is the vector's slot `Offset(s)+n+k`. |
| Layout.PrimarySlot | isochrones/starmodel.py:383-387 | The primary mass of decoded system s is the first slot of its segment. |
| Bounds.LookupBounds | isochrones/starmodel.py:300-314 | A missing name fails on the table access. A stored pair comes back with the table unchanged. An unresolved entry succeeds iff the grid knows the name, then gives the grid's range. Every success leaves the answer stored under that name. |
| Bounds.LookupMemoized | isochrones/starmodel.py:300-314 | After a successful lookup, asking again returns the same pair and leaves the table alone. Every other name gets the same answer as before. |
| Bounds.SetBounds | isochrones/starmodel.py:316-320 | The call succeeds iff every value has length 2. Otherwise it stops at the first value whose length is not 2. |
| Bounds.SetBoundsEffect | isochrones/starmodel.py:316-320 | The values before the rejected one (all of them on success) are stored as given. Every other entry is unchanged. |
| Bounds.InitialBounds | isochrones/starmodel.py:106-114 | The table holds the six names: mass, feh and age unresolved, q = (0.1, 1.0), distance = (0, 3000), AV = (0, maxAV) or (0, 1). |
| Bounds.Snapshot | isochrones/starmodel.py:300-314 | There is a snapshot iff all six lookups succeed. It then holds what each lookup answers. |
| Bounds.SnapshotStable | isochrones/starmodel.py:300-314 | The storing done by one lookup does not change what any later lookup answers. |
| Bounds.InitialSnapshot | isochrones/starmodel.py:106-114 | A fresh model resolves mass, feh and age to the grid's range and keeps the fixed defaults. |
| Bounds.SetBoundsKeepsSnapshot | isochrones/starmodel.py:300-320 | If all six parameters resolve before a `set_bounds` call with distinct keywords, they all resolve after it, whether or not the call was rejected part-way. An applied keyword answers with the pair it gave. Every other parameter answers as before. |
| LogValues.Add | isochrones/starmodel.py:374-376 | A sum of log values is finite iff both terms are finite. It is then their real sum. |
| LogValues.Log | isochrones/starmodel.py:374-375 | The log of a density is finite iff the density is positive. |
| Posterior.SharedStep | isochrones/starmodel.py:369-378 | The shared-parameter checks never raise. |
| Posterior.RatioStep | isochrones/starmodel.py:392-404 | The ratio terms raise exactly when a secondary remains and the primary mass is zero. |
| Posterior.SystemStep | isochrones/starmodel.py:367-406 | One system raises only in two cases: it has no member stars, or its primary mass is zero and it has secondaries. |
| Posterior.SystemStepOutcome | isochrones/starmodel.py:367-406 | A stop in the shared checks stops the system. Once they pass, a system with no members raises, and a zero primary with secondaries raises. A single star goes on with its mass term added, even when that term is -inf. |
| Posterior.LnPrior | isochrones/starmodel.py:363-408 | `lnprior(p)`: the walk over all systems from a zero sum. `LnPriorExact` states its value, `RaisesAtSystem` when it raises, and `StopsAtSystem` where it stops with -inf. |
| Posterior.LnPriorFrom | isochrones/starmodel.py:363-408 | Reaching a system whose segment does not fit raises a short vector for that system. A raised short vector names a system whose segment does not fit in the vector. A raised zero primary names a system with secondaries whose primary-mass slot is 0. A raised empty system names a system of no member stars whose four shared slots fit in the vector. |
| Posterior.SharedStepSpec | isochrones/starmodel.py:369-378 | Once the sum is not finite, the next check stops. From a finite sum, the checks go on iff each value is in bounds and each density is positive. The sum is then extended by their logs. |
| Posterior.RatioStepSpec | isochrones/starmodel.py:392-404 | From a finite sum, the ratio terms go on iff every q density is positive. The sum is then extended by their logs. |
| Posterior.SystemStepSpec | isochrones/starmodel.py:367-406 | A system whose primary can be read never raises. From a finite sum, a system in bounds with all densities positive adds exactly the logs of its terms. Otherwise it stops, or goes on with -inf. |
| Posterior.SystemStepNegInf | isochrones/starmodel.py:383-389 | A system goes on with -inf exactly when the sum was finite and the system is a single star. Its shared values must be in bounds with positive densities, and its mass density must not be positive: the mass prior has no stop of its own. |
| Posterior.WalkSpec | isochrones/starmodel.py:366-406 | Walking the systems from a finite sum stays finite iff every system passes its range and positivity checks. It then adds all their logs. A sum that is already -inf stays -inf. |
| Posterior.LnPriorExact | isochrones/starmodel.py:363-408 | The log-prior is finite iff every system's age, feh, distance and AV are within their inclusive bounds and every density evaluated is positive. It is then the sum of their logs, and -inf otherwise. The densities are the four shared ones, the mass prior of the primary only, and one q prior of `masses[j+1]/masses[0]` per secondary with the q bounds. |
| Posterior.StopsAtSystem | isochrones/starmodel.py:367-378 | If system s has a shared value out of range or of zero density and the earlier systems do not raise, the result is -inf. This holds whatever the later systems hold: the same prefix of the vector, cut after system s, gives -inf too. |
| Posterior.SharedStopsBy | isochrones/starmodel.py:369-378 | An out-of-range or zero-density shared value at position k stops the checks started at any earlier position. |
| Posterior.VectorTruncate | isochrones/starmodel.py:363-408 | Slots past `n_params` do not affect the log-prior. |
| Posterior.PrefixRun | isochrones/starmodel.py:366-406 | Evaluating the first m systems is the same walk as evaluating them inside the full model. A raise is the same raise. A value is where the full walk stands after m systems: either the full walk goes on from that value, or both are -inf. |
| Posterior.RaisesAtSystem | isochrones/starmodel.py:383-393 | Suppose the systems before s give a value and system s passes its shared checks. Then the log-prior raises at s if s has no member stars, and also if s has secondaries and a zero primary mass. |
| Posterior.LnPost | isochrones/starmodel.py:353-357 | A prior that is not finite is returned unchanged. A finite prior never leads to a raise: the posterior is then prior plus likelihood, finite iff the likelihood is. |
| Posterior.EmptySystemNeverFinite | isochrones/starmodel.py:366-386 | A model with a system of no member stars never has a finite log-prior. An empty-system raise names a system whose count is 0. |
| Posterior.LnPostSkipsLikelihood | isochrones/starmodel.py:353-357 | When the prior is not finite, any two likelihoods give the same log-posterior, namely the prior. |
| Posterior.MnestLogLike | isochrones/starmodel.py:433-436 | `mnest_loglike(cube)` is `lnpost` of the cube, read as a parameter vector without any transform. `CubeTransform.NestedLogLikeOnCube` states its value on a transformed unit-cube point. |
| Secondaries.SecondariesUnordered | isochrones/starmodel.py:363-408 | Exchanging two secondaries of one system in the vector leaves the log-prior unchanged, raises included, whatever the rest of the vector holds. |
| Secondaries.SystemStepSwap | isochrones/starmodel.py:367-406 | A system with two secondaries exchanged takes the same step: the same raise, the same stop, or the same extended sum. |
| Secondaries.RatioStepSwap | isochrones/starmodel.py:392-404 | The q terms of a system with two secondaries exchanged end the same way: the same raise for a zero primary, the same stop, or the same sum. |
| Secondaries.SwapKeepsTerms | isochrones/starmodel.py:392-404 | Exchanging two secondaries keeps the bounds checks, the positivity of all densities and the sum of their logs. |
| Secondaries.SwapTerms | isochrones/starmodel.py:374-404 | Exchanging two terms of the sum changes neither its positivity nor its value. |
| Secondaries.DecodeSwap | isochrones/starmodel.py:383 | Exchanging two mass slots of system s changes only that system's masses, by the same exchange. |
| CubeTransform.MnestPrior | isochrones/starmodel.py:421-431 | Every slot k below `n_params` becomes `(hi-lo)*cube[k] + lo` for the parameter the layout stores at k. Every later slot is unchanged. |
| CubeTransform.TransformSystem | isochrones/starmodel.py:423-431 | One pass of the outer loop finishes system s: its whole segment is transformed, and every slot after it is still the cube's. |
| CubeTransform.TransformMasses | isochrones/starmodel.py:424-426 | Every mass slot of system s is mapped onto the mass bounds. Earlier slots stay transformed and later slots are untouched. |
| CubeTransform.TransformShared | isochrones/starmodel.py:428-430 | The age, feh, distance and AV slots of system s are mapped onto their own bounds. Earlier slots stay transformed and later slots are untouched. |
| CubeTransform.ScaleInBounds | isochrones/starmodel.py:426-430 | A point of [0,1] maps into [lo, hi] when lo <= hi. |
| CubeTransform.ScaleInverse | isochrones/starmodel.py:426-430 | On bounds with lo < hi, `(x-lo)/(hi-lo)` undoes the map, both ways round. |
| CubeTransform.Transformed | isochrones/starmodel.py:421-431 | The reference result of `mnest_prior`: slot k below `n_params` is scaled onto the bounds of the parameter it holds, and later slots are kept. It has the cube's length. `MnestPrior` is proved to compute it, and `TransformedInBounds` states that it lands within the bounds. |
| CubeTransform.TransformedInBounds | isochrones/starmodel.py:421-431 | A unit-cube point becomes a vector whose every slot is within its parameter's bounds. Every decoded system passes the log-prior's range checks. |
| CubeTransform.NestedLogLikeOnCube | isochrones/starmodel.py:433-436 | With positive mass bounds, the nested sampler's log-likelihood of a transformed unit-cube point never raises. It is -inf exactly when some density or the likelihood is, and otherwise the sum of all logs plus the likelihood. |
| Topology.TuplesMember | isochrones/starmodel.py:964 | The product of k copies of an alphabet yields exactly the length-k tuples over it. |
| Topology.TuplesLength | isochrones/starmodel.py:964 | The product has m^k tuples. |
| Topology.TuplesSorted | isochrones/starmodel.py:964 | Over an increasing alphabet the product is in strict lexicographic order. |
| Topology.Filter | isochrones/starmodel.py:964-965 | The kept tuples are exactly those of the input that pass the test. |
| Topology.FilterSorted | isochrones/starmodel.py:964-965 | Filtering keeps the order. |
| Topology.SortedUnique | isochrones/starmodel.py:963-976 | Two strictly sorted lists with the same members are equal. |
| Topology.NOptions | isochrones/starmodel.py:963-965 | `N_options`. `NOptionsMember` states exactly which tuples it holds, and `NOptionsSorted` that they are listed in strict lexicographic order. |
| Topology.NOptionsMember | isochrones/starmodel.py:963-965 | `N_options` holds exactly the tuples of length `N_stars` with entries in `1..max_stars` and at most `max_multiples` entries above 1. |
| Topology.NOptionsSorted | isochrones/starmodel.py:963-965 | `N_options` is in strict lexicographic order, without repeats. |
| Topology.NOptionsUnrestricted | isochrones/starmodel.py:963-965 | With `max_multiples >= N_stars`, every tuple is an option, so there are `max_stars^N_stars` of them. |
| Topology.NOptionsTwoStars | isochrones/starmodel.py:963-965 | Two stars, one multiple, two members give (1,1), (1,2), (2,1). |
| Topology.IndexOptions | isochrones/starmodel.py:967-976 | `index_options`. It fails for no stars. `IndexOptionsMember` states exactly which assignments it holds, and `IndexOptionsSorted` that they are listed in strict lexicographic order. |
| Topology.IndexOptionsMember | isochrones/starmodel.py:967-976 | `index_options` holds exactly the tuples of length `N_stars` over `0..N_stars-1` with first entry 0 and each entry at most one above its predecessor. |
| Topology.IndexOptionsSorted | isochrones/starmodel.py:967-976 | The assignments are in strict lexicographic order, without repeats. |
| Topology.CanonicalBound | isochrones/starmodel.py:973-974 | Under the rule, entry k is at most k. |
| Topology.IndexOptionsFourStars | isochrones/starmodel.py:973-974 | (0,1,2,0) is kept and (0,1,0,2) is dropped. |
| Topology.IndexOptionsThreeStars | isochrones/starmodel.py:967-976 | Three stars give (0,0,0), (0,0,1), (0,1,0), (0,1,1), (0,1,2), in that order. |
| Topology.ModelOptions | isochrones/starmodel.py:957-959 | `model_options`. `ModelOptionsFails` states when it fails, `ModelOptionsMember` which pairs it holds, and `ModelOptionsOrder` in which order. |
| Topology.ModelOptionsFails | isochrones/starmodel.py:957-959 | The product fails iff there are no stars and `max_multiples >= 0`. Only then is there a multiplicity option and `index_options` reads the first entry of the empty tuple. |
| Topology.ModelOptionsMember | isochrones/starmodel.py:957-959 | With at least one star, the group's options are exactly the pairs of a multiplicity option and an assignment option. |
| Topology.ModelOptionsLength | isochrones/starmodel.py:957-959 | With at least one star, the group has `|N_options| * |index_options|` options. |
| Topology.ModelOptionsOrder | isochrones/starmodel.py:957-959 | The pairs are listed multiplicity-major. Pair `a*|index_options| + b` is `(N_options[a], index_options[b])`. |
| Topology.PairsMember | isochrones/starmodel.py:959 | A pair is listed iff both halves are in their lists. |
| Topology.PairsAt | isochrones/starmodel.py:959 | The pair at `a*|ids| + b` is the a-th multiplicity with the b-th assignment. |

## Left out

- Fitting back-ends are not modelled: `fit`, `fit_multinest`, `fit_mcmc`, `emcee_p0`, `mnest_analyzer`, `evidence`, `sampler`, and the acceptance-fraction filter in `_make_samples`. They are external samplers, random initialisation and chain files on disk.
- `_make_samples` builds a DataFrame and calls the isochrone grid (`self.ic(...)`). Only its segment decoding is modelled, as `Layout.Decode`.
- The `addmags` band combination is left out. It is floating-point `log10` arithmetic in a utility module that is not part of this model.
- The prior densities, `np.log` and `ObservationTree.lnlike` are function-valued parameters. Nothing is assumed about them except that a density is a real number. The `**kwargs` passed to `lnlike` are not modelled.
- Configuration and I/O are left out: `from_ini`, `_parse_config_value`, `_build_obs`, `_add_properties`, coordinates, plotting, `save_hdf`/`load_hdf`, and basename handling.
- `StarModelGroup.__init__` only deep-copies models and calls `define_models`, so it is left out. `N_stars` (the number of observed leaves) is an input, and the group builds one model per element of `ModelOptions`.
- The system order is the iteration order of the observation tree's `Nstars` mapping. The model takes it as given by the counts sequence. `lnprior` iterates over `obs.systems`, and the model assumes it lists the same systems in the same order.
- `LnPrior`: a zero primary mass with secondaries is modelled as a raised error. On plain Python floats the division raises. On a numpy vector it gives inf or nan with a warning and the walk goes on.
- `LnPrior`: NaN is not modelled. A density of zero or below has log `NegInf`. For a negative density Python's log gives NaN, which every later finiteness check turns into -inf as well. The one case that differs is a negative mass density on the primary of the last system with no secondaries. Python then returns NaN, and the model returns -inf.
- Reals: Python floats are exact reals here. Rounding in `(hi-lo)*u+lo` and in the `lnp` sums, and overflow of `masses[j+1]/masses[0]`, are not modelled. `ScaleInBounds`, `TransformedInBounds` and `NestedLogLikeOnCube` hold over exact reals only.
- `LnPriorExact`: the theorem compares the walk with the decoded systems, so it assumes every system has at least one member star. A system with no member stars is covered by `EmptySystemNeverFinite` instead. `NestedLogLikeOnCube` assumes the same.
- `LnPost`: the likelihood is a `LogValue`, so a likelihood of +inf or NaN is not modelled.
- `Bounds.SetBounds`: a value with no length (such as `None`) makes `set_bounds` raise `TypeError`. Values are sequences of reals here, so this case cannot be expressed.
- `LnPrior`, `LnPost` and `MnestLogLike` take the bounds as a `ResolvedBounds` snapshot, not as the table that `lnprior` reads through `bounds(...)`. Where `bounds(...)` would raise (a missing name, or an unresolved name the grid does not know), the model has no snapshot, and that raise is not modelled. `Bounds.SnapshotStable` shows that storing grid ranges on first use never changes an answer. `Bounds.InitialSnapshot` and `Bounds.SetBoundsKeepsSnapshot` show that a snapshot exists for a fresh table and still exists after `set_bounds`.
- `MnestPrior` reads the bounds through `bounds(...)`, which may store grid ranges on first use. The model takes a `ResolvedBounds` snapshot. `Bounds.SnapshotStable` shows that the storing never changes an answer.
- The `ndim` and `nparams` arguments of `mnest_prior` and `mnest_loglike` are not read by either function, so they are left out.
- `index_options(1)` returns the bare list `[0]` rather than a list holding the tuple `(0,)`. The model represents the single option as `[[0]]`, the same shape as the other cases.
