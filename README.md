# HyperLogLog sketch in Dafny

This project models the HyperLogLog cardinality estimator of `hyperloglog.h`.

A `HyperLogLog` object of precision `b` keeps `m = 2^b` small integer registers. To add an element, it does four things:

- hashes the element's bytes with MurmurHash64A under the fixed seed `0x9747b28c`;
- takes the top `b` bits of the hash as a register index;
- takes as the rank the 1-based position of the first set bit among the remaining `64 - b` bits, scanning from the top;
- raises the selected register to that rank.

The estimate is `floor(alpha * m * m / Σ 2^-register)`.

Modules:

- `Murmur` (`murmur.dfy`):
  - the hash as specification functions, one per statement of the source;
  - the imperative `MurmurHash64A` proved equal to them;
  - a second, independent reference definition (little-endian words folded over the key) proved equal to the first.
- `HashBits` (`hashbits.dfy`): the register index and the rank, with the bit-level meaning of the rank.
- `Registers` (`registers.dfy`):
  - the register bank as a value: one observation, a stream of hashes, and the register-by-register characterisation of the result;
  - the denominator and the estimate, over exact reals.
- `HyperLogLog` (`hyperloglog.dfy`):
  - the class, with `const` fields `b`, `m`, `alpha` and an `array<int>` of registers;
  - a ghost record of the elements added so far;
  - the invariant `Valid()`, which says the registers are exactly the sketch of those elements.

The precision is a precondition of the constructor (`1 <= b <= 30`). The code performs no validation. Outside this range, `1 << b` overflows `int`, or the index shift `hash >> (64 - b)` is by 64 or more, and both are undefined behaviour in C++. The model follows the code and does not add an error result for a bad precision.

## Model

| member | source | states |
|---|---|---|
| Murmur.MurmurHash64A | hyperloglog.h:89-137 | The imperative hash (seeding, word loop, tail, finaliser) returns exactly `Hash(key, seed)` for every key whose length fits the `int len` parameter |
| Murmur.MixBlocks | hyperloglog.h:96-109 | The word loop leaves in `h` the result of absorbing words `0 .. len/8 - 1` in order (`k *= m; k ^= k >> r; k *= m; h ^= k; h *= m`) |
| Murmur.MixTail | hyperloglog.h:111-130 | The fall-through switch XORs tail byte `j` in at shift `8j` for every `j < len & 7`, multiplies by `m` exactly once when the tail is non-empty, and leaves `h` unchanged when it is empty |
| Murmur.LoadWordIsLittleEndian | hyperloglog.h:101 | The word load `*data++` composes the eight bytes little-endian: it equals the reference `LittleEndian` of those bytes |
| Murmur.BodyIsFold | hyperloglog.h:99-109 | The word loop's specification equals a fold of the absorb step over the key's little-endian words |
| Murmur.XorTailIsXor | hyperloglog.h:113-128 | XORing the tail bytes in one at a time, from the highest, is XOR with the little-endian value of the tail |
| Murmur.TailIsLittleEndian | hyperloglog.h:111-130 | The tail step is the identity on an empty tail, and otherwise `(h ^ LittleEndian(tail)) * m` |
| Murmur.HashIsReference | hyperloglog.h:89-137 | The hash equals the finaliser applied to the little-endian word fold, seeded with `seed ^ (len * m)`, followed by the tail step |
| Murmur.EmptyKey | hyperloglog.h:89-137 | For the empty key the hash is the finaliser applied to the seed alone |
| HashBits.RegisterIndex | hyperloglog.h:28 | `hash >> (64 - b)` is the top `b` bits of the hash, a register index below `2^b` |
| HashBits.Rank | hyperloglog.h:77-87 | The rank lies in `[1, 65 - b]` |
| HashBits.PositionOfLeftMostOne | hyperloglog.h:77-87 | The loop from bit `63 - b` down returns `Rank(hash, b)`, including the sentinel `(64 - b) + 1` when no bit is set |
| HashBits.RankSentinel | hyperloglog.h:86 | The rank is `65 - b` exactly when bits `63 - b .. 0` of the hash are all clear |
| HashBits.RankFirstSet | hyperloglog.h:79-84 | A rank `r <= 64 - b` means bit `64 - b - r` is set and every bit above it, up to `63 - b`, is clear |
| Registers.ObserveFrame | hyperloglog.h:30 | `registers_[idx] = max(registers_[idx], p)` changes only register `idx`, which becomes `p` if it was lower |
| Registers.ObserveGrows | hyperloglog.h:30 | No register ever decreases |
| Registers.ObserveIdempotent | hyperloglog.h:30 | Observing the same rank at the same index twice is the same as once |
| Registers.ObserveCommutes | hyperloglog.h:30 | Two observations give the same bank in either order |
| Registers.AddHash | hyperloglog.h:26-30 | Adding a hash keeps the register count, and keeps every register in `[0, 65 - b]` |
| Registers.AddHashIdempotent | hyperloglog.h:17-31 | Adding the same hash twice is the same as adding it once |
| Registers.AddAll | hyperloglog.h:17-31 | A stream of added hashes keeps the register count and the register bounds |
| Registers.AddAllIsMax | hyperloglog.h:17-31 | After a stream of hashes, each register is the maximum of its old value and the largest rank among the hashes that select it |
| Registers.AddAllOfSameSet | hyperloglog.h:17-31 | The bank depends only on the set of hashes added, not on their order or repetitions |
| Registers.Weight | hyperloglog.h:39 | A register's contribution `1 / 2^val` lies in `(0, 1]` |
| Registers.WeightAntitone | hyperloglog.h:39 | A larger register contributes less |
| Registers.Denominator | hyperloglog.h:36-40 | The accumulated denominator lies in `[0, m]`, and is positive for a non-empty bank |
| Registers.DenominatorOfZeros | hyperloglog.h:36-40 | With all registers zero the denominator is `m` |
| Registers.DenominatorAntitone | hyperloglog.h:36-40 | Registers that grow pointwise never increase the denominator |
| Registers.EstimateOfZeros | hyperloglog.h:41 | With all registers zero the estimate is `floor(alpha * m)`, not 0 |
| Registers.EstimateMonotone | hyperloglog.h:41 | Registers that grow pointwise never decrease the estimate |
| Registers.AddHashEstimate | hyperloglog.h:17-42 | Adding an element never lowers the estimate |
| HyperLogLog.CalculateHash | hyperloglog.h:65-68 | An element's hash is MurmurHash64A of its bytes under seed `0x9747b28c` |
| HyperLogLog.GetAlpha | hyperloglog.h:53-63 | The bias-correction constant lies strictly between 0 and 0.7213 for every register count |
| HyperLogLog.AlphaMonotone | hyperloglog.h:61-62 | Outside the three tabulated sizes, the constant grows with `m` |
| HyperLogLog.Sketch | hyperloglog.h:17-31 | The registers of a sketch given any elements number `2^b`, each in `[0, 65 - b]` |
| HyperLogLog.SketchAppend | hyperloglog.h:17-31 | Adding one more element is one more observation of its hash |
| HyperLogLog.SketchOfSameSet | hyperloglog.h:17-31 | Two sketches given the same elements, in any order and with any repetitions, hold the same registers |
| HyperLogLog.HyperLogLog.constructor | hyperloglog.h:10-13 | A new sketch has `m == 2^b` registers, all zero, and `alpha == GetAlpha(m)` |
| HyperLogLog.HyperLogLog.GetB | hyperloglog.h:14 | The precision is in `[1, 30]`, and `2^b` is the number of registers |
| HyperLogLog.HyperLogLog.GetM | hyperloglog.h:15 | The register count is `2^b` |
| HyperLogLog.HyperLogLog.AddElem | hyperloglog.h:17-31 | Adding an element changes exactly the register its hash selects, raising it to the rank if lower, and keeps the registers equal to the sketch of all elements added so far |
| HyperLogLog.HyperLogLog.ComputeCardinality | hyperloglog.h:33-42 | The loop accumulates `Σ 2^-register` in order and returns `floor(alpha * m * m / denominator)` |

## Left out

- Floating point: `alpha_`, the denominator and the final quotient are `double`s in the source. The model computes them over exact reals, so rounding error is not modelled.
- ComputeCardinality: `1 << val` is an `int` shift, so for a register of 31 or more it overflows (undefined behaviour). The model uses the exact `2^-val` instead. The constructor's `1 << b` is exact because `b <= 30`.
- ComputeCardinality: the `double` floor is implicitly converted to the `int` return value, and that conversion is undefined above `2^31 - 1`. This is reachable, for example at `b = 30` with every register at least 2. The model returns the unbounded floor. So `Estimate`, `EstimateMonotone` and `AddHashEstimate` also speak of the unbounded value, including where the source's result is undefined.
- HyperLogLog.GetAlpha: the literals `0.673`, `0.697`, `0.709`, `0.7213` and `1.079` are taken as exact decimals, not as their nearest `double`s.
- MurmurHash64A word loads: `*data++` reads a possibly unaligned 64-bit word in host byte order. The model reads little-endian words from the byte sequence, so big-endian hosts are not modelled.
- MurmurHash64A length: the key length is passed through `int len`. Keys longer than `2^31 - 1` bytes are excluded by a precondition.
- CalculateHash: `std::string` is modelled as its byte sequence.
- ComputeBinary: `std::bitset<64>` is not a separate operation. Bit `i` of the hash is read directly (`Bit`), numbered from the least significant end as the bitset numbers it.
- The `float alpha = 0.79402` member is never read by the class and is not modelled.
- The command-line test driver `main.cpp` (random test data, exact reference counting, reporting) is not part of this model.
- No statistical property of the estimate (accuracy, hash uniformity) and no bit-level property of the mixing steps (such as invertibility) is stated.
- There is no concurrency in the source; the class is modelled single-threaded.
