# neuro-kl data preparation, modelled in Dafny

neuro-kl estimates entropy and Kullback-Leibler divergence of binarised neural
activity. Before any estimate, its `kl_tools.py` turns a spike recording into
integer count histograms. This project models that integer pipeline and proves
what it computes:

- **State encoding** (`spikes2states`). A recording of T time steps by C channels
  becomes one state per time step, `sum_k row[k] * 2^(C-1-k)`, with channel 0 the
  most significant bit. The encoder rejects the recording with a `ValueError`
  when an entry fails its binary test.
- **Histograms** (`states2distr`, unnormalised). numpy bins the states with the
  integer edges `0, 1, ..., 2^C`. Every bin is half-open except the last one,
  which is closed, so a value equal to `2^C` is counted in bin `2^C - 1`.
  Values below 0 or above `2^C` are not counted.
- **Block partitions** (`states2dict` without shuffling, and `_check_dict_consistency`).
  For each block count d, the first `npoints` states are cut into d contiguous
  blocks of `npoints // d` states and each block is histogrammed. The slices use
  Python semantics: when fewer than `npoints` states exist, the last blocks are
  cut short or empty. The check then compares the summed blocks of keys 2 and 4
  against the single block of key 1.
- **Transition counts** (`transition_matrix`, and `states2transition_dict` with
  `indep=False`). These are joint histograms of the pairs `(y[t], y[t+dt])`,
  for the whole sequence or for each of d blocks of `len(states) / d` states.
  The bins are passed to `histogram2d` as the list `range(nstates + 1)`. numpy
  reads a list of one or two entries as per-axis bin counts, not as edges, and
  raises. So a transition matrix needs at least two states, and a recording with
  no channels (2^0 = 1 state) makes `states2transition_dict` raise.

Modules: `Wrappers` (Option/Result/Outcome and the error kinds), `Bits` (binary
words and their codes), `Spikes` (the encoder), `Histogram` (one-dimensional
histograms), `Blocks` (block partitions and the consistency check) and
`Transitions` (transition matrices and their partition). Everything is a pure
function over `seq`, `map` and unbounded `nat`/`int`. Spike entries are `real`,
so that the fractional entries an array may hold can be stated. Arithmetic on
them is exact, unlike float64 arithmetic (see "## Left out").

Main facts proved:
- Encoding is a bijection between C-bit rows and `[0, 2^C)`. Decoding a state
  into C binary digits, as `binary_repr` does, gives back the row.
- Histogram counts are conserved. The bins add up to the number of samples
  exactly when every sample lies in `[0, 2^C]`. For valid states, bin s is the
  number of occurrences of s.
- The d blocks of a partition tile the first `d * (npoints // d)` states. So their
  element-wise sum is at most the d = 1 histogram, and equals it when d divides
  `npoints`. The asserts of the consistency check therefore never fail on
  `states2dict` output. `states2dict` fails exactly when key 2 or key 4 is
  requested without key 1, and then the failure is the lookup of key 1.
- Transition cell (a, b) counts the t with `y[t] = a` and `y[t+dt] = b`. The cells
  total `max(0, len(y) - dt)` for valid states. Each transition block is an
  unclipped slice of `len(states) / d` states. `transition_matrix` raises
  exactly when `nstates < 2`, and `states2transition_dict` raises exactly when
  there are no channels and some block count is requested.

The consistency check is one-sided. It asserts only `sum - npoints < 1e-4` and
`blocks - distr[1][0] < 1e-4`, so blocks that undercount still pass. Because the
counts are integers, each tolerance test is an exact `<=`.

## Model

| member | source | states |
|---|---|---|
| Bits.Pow2 | python/neuro_kl/kl_tools.py:119 | the channel weight 2^n exceeds n, so it is at least 1, and at least 2 from one channel on |
| Bits.PowerVectorSnoc | python/neuro_kl/kl_tools.py:119 | the weights of c + 1 channels are those of c channels doubled, followed by weight 1 for the new last channel |
| Bits.EncodeRow | python/neuro_kl/kl_tools.py:117-120 | the state of a C-bit row, read as a binary number with channel 0 most significant, lies in [0, 2^C) |
| Bits.EncodeIsWeightedSum | python/neuro_kl/kl_tools.py:119-120 | that binary reading equals the sum of row[k] * 2^(C-1-k) that the encoder computes |
| Bits.Decode | python/neuro_kl/kl_tools.py:178 | the binary representation of a state padded to width c has exactly c digits, each 0 or 1 |
| Bits.DecodeEncode | python/neuro_kl/kl_tools.py:117-120 | decoding a row's state into width-C digits returns exactly that row |
| Bits.EncodeDecode | python/neuro_kl/kl_tools.py:178 | every state below 2^c is the code of its own c-digit pattern, so encoding is onto [0, 2^c) |
| Bits.EncodeInjective | python/neuro_kl/kl_tools.py:117-120 | two rows of equal width with the same state are equal |
| Bits.DecodeZero | python/neuro_kl/kl_tools.py:178 | the special case '0'*nchannels for state 0 agrees with the general digit expansion |
| Bits.FourChannelExample | python/neuro_kl/kl_tools.py:128-129 | the pattern 1 0 1 0 on four channels is state 10, and back |
| Spikes.Spikes2StatesAsWritten | python/neuro_kl/kl_tools.py:113-120 | the source's encoder raises exactly when some entry lies outside [0, 1]; otherwise it returns one value per row, a real in [0, 2^C) |
| Spikes.RealDotWithin | python/neuro_kl/kl_tools.py:114-120 | for entries in [0, 1], the weighted sum of a row lies between 0 and the weighted sum of the all-active row |
| Spikes.AllActiveBelow | python/neuro_kl/kl_tools.py:119-120 | the all-active row of C channels sums to less than 2^C |
| Spikes.Spikes2States | python/neuro_kl/kl_tools.py:109-120 | fails exactly when some entry is neither 0 nor 1; otherwise one state per row, below 2^C, whose C binary digits (channel 0 first) are the row |
| Spikes.StatesIdentifyRows | python/neuro_kl/kl_tools.py:117-120 | two time steps have the same state if and only if their rows are equal |
| Spikes.AsWrittenAgreesOnBinary | python/neuro_kl/kl_tools.py:113-120 | on binary input the source's encoder accepts and computes the same states as the binary-checked encoder |
| Spikes.RangeCheckExactOnIntegers | python/neuro_kl/kl_tools.py:113-115 | for integer-valued arrays the [0, 1] range test is exactly the binary test |
| Spikes.HalfSpikeExample | python/neuro_kl/kl_tools.py:113-120 | the entry 0.5 passes the source's check and yields state 0.5, while the binary check rejects it |
| Spikes.SilenceIsStateZero | python/neuro_kl/kl_tools.py:117-120 | a recording with no spikes is state 0 at every time step |
| Spikes.TwoChannelExample | python/neuro_kl/kl_tools.py:117-120 | on two channels the patterns 00, 10, 01, 11 are the states 0, 2, 1, 3 |
| Histogram.BinOf | python/neuro_kl/kl_tools.py:142-143 | a sample falls in a bin exactly when it lies in [0, nbins], and that bin is below nbins |
| Histogram.Histogram | python/neuro_kl/kl_tools.py:142-143 | the histogram has nbins entries; bin b holds the occurrences of b, and the last bin also holds those of the right edge nbins |
| Histogram.States2Distr | python/neuro_kl/kl_tools.py:139-144 | the unnormalised distribution has length 2^C |
| Histogram.HistogramTotal | python/neuro_kl/kl_tools.py:142-144 | every sample is counted once or falls outside all bins: the bins plus the uncounted samples add up to the length |
| Histogram.HistogramConservesCount | python/neuro_kl/kl_tools.py:142-144 | the bins add up to at most the number of samples, and to exactly that number if and only if every sample lies in [0, nbins] |
| Histogram.HistogramOfStates | python/neuro_kl/kl_tools.py:142-144 | for states in [0, nbins), bin s is the number of occurrences of s and the bins add up to the length |
| Histogram.States2DistrCounts | python/neuro_kl/kl_tools.py:140-144 | for states of C channels, entry s counts state s and the entries add up to the number of states |
| Histogram.HistogramAppend | python/neuro_kl/kl_tools.py:159-161 | the histogram of two consecutive pieces is the element-wise sum of their histograms |
| Histogram.FourStatesExample | python/neuro_kl/kl_tools.py:142-144 | the states 0, 2, 1, 3 of two channels give the histogram [1, 1, 1, 1] |
| Histogram.ZeroStatesHistogram | python/neuro_kl/kl_tools.py:142-144 | n zero states give n in bin 0 and 0 in every other bin |
| Histogram.RightEdgeExample | python/neuro_kl/kl_tools.py:142-143 | the value 4 over two channels lands in the last bin: [0, 0, 0, 1] |
| Blocks.BlockSlice | python/neuro_kl/kl_tools.py:160 | block i of length bl holds the states from position i * bl on: exactly bl of them when the sequence reaches (i + 1) * bl, otherwise every remaining state (none when the sequence ends before i * bl) |
| Blocks.PySlice | python/neuro_kl/kl_tools.py:160 | a slice holds the elements from lo onward, cut back at the end of the sequence and empty when the end is not past the start |
| Blocks.BlockHistograms | python/neuro_kl/kl_tools.py:156-161 | key d holds exactly d histograms of 2^C entries each |
| Blocks.Partition | python/neuro_kl/kl_tools.py:155-161 | the dictionary has exactly the requested block counts as keys, each holding d histograms of 2^C entries |
| Blocks.PrefixStep | python/neuro_kl/kl_tools.py:159-161 | extending a prefix of the states by the next slice adds that slice's histogram to the prefix's |
| Blocks.PrefixTiling | python/neuro_kl/kl_tools.py:156-161 | the first k blocks of key d add up to the histogram of the first k * (npoints // d) states |
| Blocks.BlocksTilePrefix | python/neuro_kl/kl_tools.py:156-161 | the d blocks of key d add up to the histogram of the first d * (npoints // d) states |
| Blocks.WholeBlock | python/neuro_kl/kl_tools.py:156-161 | the single block of key 1 is the histogram of the first npoints states |
| Blocks.PrefixWithin | python/neuro_kl/kl_tools.py:156-161 | a shorter prefix's histogram is below a longer prefix's in every bin, and totals at most its own length |
| Blocks.BlocksWithinWhole | python/neuro_kl/kl_tools.py:156-161 | the blocks of any key sum to at most npoints and to at most the d = 1 histogram in every bin, with equality when d divides npoints |
| Blocks.BlockCountsSlice | python/neuro_kl/kl_tools.py:156-161 | with at least npoints valid states, block i of key d has npoints // d states, counts state s in its slice, and totals npoints // d |
| Blocks.VectorSumTotal | python/neuro_kl/kl_tools.py:195-198 | the total of the element-wise sum of the blocks is the total count of all blocks |
| Blocks.CheckBlockCount | python/neuro_kl/kl_tools.py:194-199 | one round passes exactly when key d is absent or its blocks sum to at most npoints and at most the d = 1 histogram per bin; it fails on key 1 exactly when key d is present, its total is within npoints and key 1 is absent |
| Blocks.CheckConsistency | python/neuro_kl/kl_tools.py:190-199 | passes exactly when keys 2 and 4, if present, have blocks summing to at most npoints and to at most the d = 1 histogram per bin; a missing key 1 is reported only when key 1 is absent |
| Blocks.PartitionAlwaysConsistent | python/neuro_kl/kl_tools.py:162 | on a freshly built partition the consistency check passes whenever key 1 is present, and otherwise fails only on the lookup of key 1 |
| Blocks.States2Dict | python/neuro_kl/kl_tools.py:146-163 | fails exactly when key 2 or 4 is requested without key 1, with the missing-key error; otherwise returns exactly the block partition, keyed by the requested block counts |
| Blocks.DefaultFractionsSucceed | python/neuro_kl/kl_tools.py:146 | with the default block counts 1, 2 and 4 the partition is always returned |
| Transitions.Starts | python/neuro_kl/kl_tools.py:205 | y[:-dt] holds the first max(0, len - dt) states |
| Transitions.Ends | python/neuro_kl/kl_tools.py:205 | y[dt:] holds the states dt positions later, as many as y[:-dt] |
| Transitions.PairHistogram | python/neuro_kl/kl_tools.py:205 | the joint histogram is nstates by nstates and cell (a, b) holds the number of pairs whose samples fall in bins a and b |
| Transitions.TransitionMatrix | python/neuro_kl/kl_tools.py:201-206 | raises exactly when nstates < 2, since the bins list then has one or two entries; otherwise an nstates by nstates matrix whose cell (a, b) counts the lagged pairs falling in bins a and b |
| Transitions.PairHistogramTotal | python/neuro_kl/kl_tools.py:205 | every pair is counted once or has a sample outside all bins |
| Transitions.TransitionTotal | python/neuro_kl/kl_tools.py:201-206 | the cells plus the uncounted pairs add up to max(0, len(y) - dt) |
| Transitions.TransitionCounts | python/neuro_kl/kl_tools.py:201-206 | for valid states, cell (a, b) counts the t with y[t] = a and y[t + dt] = b, and the cells total max(0, len(y) - dt) |
| Transitions.TransitionTotalOfStates | python/neuro_kl/kl_tools.py:201-206 | for valid states the cells total max(0, len(y) - dt) |
| Transitions.BlockFits | python/neuro_kl/kl_tools.py:219-221 | block i of d blocks of n / d states ends at (i + 1) * (n / d), within the n states |
| Transitions.TransitionSlice | python/neuro_kl/kl_tools.py:219-221 | block i of key d is the unclipped run of exactly len(states) / d states |
| Transitions.TransitionBlocks | python/neuro_kl/kl_tools.py:205-224 | raises exactly when there are no channels; otherwise key d holds d matrices, block i being the transition matrix of slice i over 2^C states |
| Transitions.States2TransitionDict | python/neuro_kl/kl_tools.py:205-224 | raises exactly when there are no channels and some block count is requested; otherwise the keys are exactly the requested block counts, each holding d matrices of 2^C by 2^C counts |
| Transitions.TransitionBlockTotal | python/neuro_kl/kl_tools.py:213-224 | for valid states of at least one channel the dictionary is returned, and each block of key d totals max(0, len(states) / d - dt) transitions |
| Transitions.OneChannelExample | python/neuro_kl/kl_tools.py:201-206 | the states 0, 1, 1, 0 with lag 1 give [[0, 1], [1, 1]] |

## Findings

| source | as written | input that shows it | evidently intended | confidence | as-written member | corrected member |
|---|---|---|---|---|---|---|
| python/neuro_kl/kl_tools.py:113-115 | the binary check only tests 0 <= x <= 1, so fractional entries pass and produce fractional states | a one-channel recording with the single entry 0.5 is accepted and becomes state 0.5 (Spikes.HalfSpikeExample) | reject every entry other than 0 and 1, as the message 'Input array must be binary' says | not executed; medium (integer arrays behave correctly, see Spikes.RangeCheckExactOnIntegers) | Spikes.Spikes2StatesAsWritten | Spikes.Spikes2States |

## Left out

- `kl` and `entropy` are not modelled. They compute real-valued log2 sums, and their zero-bin rejection only guards that floating-point arithmetic.
- `mean_H_estimate` and `mean_KL_estimate` are not modelled. They evaluate the digamma function in floating point.
- `kl_estimation` and `h_estimation` are not modelled. They fit a least-squares polynomial with a library call (`polyfit`) over floats.
- `spikes2indep_dict` is not modelled. Its blocks are products of floating-point marginal probabilities.
- The `normed=True` path of `states2distr` is not modelled. It divides the counts by their total in floating point.
- The `indep=True` branch of `states2transition_dict` is not modelled. It takes a scaled outer product of normalised marginals.
- The `shuffle=True` branch of `states2dict` is not modelled. It draws a permutation from numpy's global random generator.
- Machine number widths are not modelled: counts and states are unbounded and the model's `real` arithmetic is exact. int64 spike arrays give exact states up to 63 channels. float64 arrays give exact states only up to 53 channels; beyond that the sums round, so distinct rows can share a state, which Spikes.StatesIdentifyRows and Bits.EncodeInjective do not allow for. `astype('int32')` in the consistency check wraps counts above 2^31 - 1.
- Non-integer states are not histogrammed. The histograms take integer samples, so the fractional states the source's encoder can produce stop at the encoder.
- `dt <= 0` is excluded by a precondition. With `dt = 0` and a non-empty y, `y[:-0]` is empty while `y[0:]` is not, so `histogram2d` receives arrays of different lengths and raises; with an empty y it returns a zero matrix. A negative `dt` pairs the wrong ends of the sequence.
- A block count `d = 0` is excluded by a precondition, because `npoints // 0` raises. A negative `d` is excluded by its type, although the source accepts it: `[None]*d` and `range(d)` are then empty, so key d maps to an empty block list, and the consistency check ignores that key. Negative `npoints` is also excluded by its type.
- Recordings are assumed rectangular (`SpikeMatrix.WellShaped`), as any two-dimensional array is.
- Python 2 syntax and the missing imports (`log`, `array`, `zeros`, `outer`) are not modelled. They are artefacts of the file, not behaviour.
- Spikes.Spikes2StatesAsWritten: the contract gives the error condition, the number of states and their range [0, 2^C), but not their values. The values are pinned by Spikes.AsWrittenAgreesOnBinary on binary input and by Spikes.HalfSpikeExample on a fractional one.
- Transitions.States2TransitionDict: the contract gives the failure condition, keys and shapes. The contents of each block are stated by Transitions.TransitionBlocks and Transitions.TransitionBlockTotal.
