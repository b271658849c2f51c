# Cadence memory-cost constructors

This project models the memory-cost constructors of the Cadence runtime, found in
`runtime/common/metering.go`. The interpreter meters every allocation. First it
turns the logical size of the new value into a `MemoryUsage`, which is a memory
kind paired with an amount. Then it hands that record to a `MemoryGauge`.

The constructors modelled are:

- `NewStringMemoryUsage`: a string of `length` bytes costs `length + 1`. The extra
  unit means an empty string still costs something.
- `NewBigIntMemoryUsage`: a big integer costs the number of bytes it is given.
- `BigIntByteLength`: the byte length of a big integer. This is the number of
  magnitude words times the word size.
- `NewPlusBigIntMemoryUsage`: the cost charged before an addition. It is the
  worst-case size of the sum, `max(len a, len b) + wordSize`.
- `NewMulBigIntMemoryUsage`: the cost charged before a multiplication. It is the
  worst-case size of the product, `len a + len b`.
- `max`: the helper the addition cost uses.

Files:

- `words.dfy` (module `Words`): arithmetic on little-endian word vectors. It
  defines powers, the value a vector denotes and the canonical digit vector of a
  number. It proves that the sum of an n-word and an m-word number fits in
  max(n, m) + 1 words, and that their product fits in n + m words.
- `big.dfy` (module `Big`): an abstract `big.Int`. It holds a sign and the
  normalized magnitude words that `Bits()` returns. It also defines the
  canonical conversion from and to mathematical integers. The result of an
  addition or a multiplication is any valid big integer whose value is the exact
  sum or product. Because the representation is unique, that integer is the one
  `math/big` returns.
- `metering.dfy` (module `Metering`): `MemoryKind`, `MemoryUsage` and the cost
  constructors.
- `cost_lemmas.dfy` (module `CostLemmas`): the symmetry and bounds of the costs,
  the worked examples of the cost model, and the pre-charge guarantee. The amount
  charged before an addition or multiplication is never less than the byte length
  of the result. The worst case is reached by all-ones operands.

Modelling choices:

- The word size is a parameter. The source reads it from the host with
  `unsafe.Sizeof(big.Word(0))`, so it is 4 bytes on a 32-bit host and 8 on a
  64-bit one. The cost constructors take `ws: Metering.GoWordSize`, which is one
  of these two values. The big-integer lemmas beneath them hold for any positive
  word size `Big.WordSize`. `Big.HostWordSize` is 8, the 64-bit case.
- A host-dependent word size makes costs depend on the platform. The same
  value is charged 4 bytes on a 32-bit host and 8 on a 64-bit one, so two nodes
  on different hardware could disagree on whether a program stays within its
  memory limit. Costs that decide acceptance should be the same everywhere, so
  the word size ought to be a fixed constant of the cost model. The model
  follows the code: it keeps the word size host-dependent and shows the
  difference in `CostLemmas.ByteLengthDependsOnWordSize`.
- Go's `int` is as wide as a machine word. Its largest value is
  `Metering.MaxInt(ws)`: 2^31 - 1 when `ws` is 4 and 2^63 - 1 when `ws` is 8.
  Sizes are `nat` bounded by it, so negative sizes are excluded by this typing.
- The conversion `uint64(x)` and `uint64` addition are written modulo 2^64.
  Because of this, the exact amounts in the contracts are proved to be free of
  wrap-around, not assumed.
- `MemoryKind` is defined elsewhere in the runtime. Here it has only the two
  kinds these constructors produce, `String` and `BigInt`.

## Model

| member | source | states |
|---|---|---|
| Metering.NewStringMemoryUsage | runtime/common/metering.go:35-40 | kind is String and the amount is exactly length + 1: the uint64 conversion and +1 never wrap for any length in the Go int range |
| CostLemmas.StringUsageOrdered | runtime/common/metering.go:38 | every string costs at least 1, the empty string costs exactly 1, and a longer string costs strictly more (both directions) |
| CostLemmas.StringUsageExamples | runtime/common/metering.go:35-40 | length 0 costs (String, 1) and length 255 costs (String, 256) |
| CostLemmas.NegativeLengthWraps | runtime/common/metering.go:38 | why negative lengths are excluded: uint64(-1) + 1 wraps to 0 |
| Metering.NewBigIntMemoryUsage | runtime/common/metering.go:42-47 | kind is BigInt and the amount is the byte count unchanged (the conversion does not wrap) |
| Metering.Max | runtime/common/metering.go:49-54 | the result is one of the two arguments and is at least both |
| CostLemmas.MaxSymmetric | runtime/common/metering.go:49-54 | max(a, b) == max(b, a) |
| Big.FromInt | runtime/common/metering.go:58-62 | every integer has a normalized sign-and-magnitude word vector, the shape Bits() exposes, denoting exactly it |
| Big.FromIntToInt | runtime/common/metering.go:58-62 | that word vector is unique: a valid big integer is the canonical one for its value, so its word count is well defined |
| Metering.BigIntByteLength | runtime/common/metering.go:56-62 | the byte length is a multiple of the word size and is 0 exactly when the magnitude has no words |
| Metering.ByteLengthFitsMagnitude | runtime/common/metering.go:58-62 | for a valid big integer, the magnitude is below 2^(8 * byte length) and, when nonzero, at least 2^(8 * (byte length - word size)): the byte length is the magnitude's size rounded up to whole words |
| CostLemmas.ByteLengthMonotone | runtime/common/metering.go:58-62 | byte lengths are ordered exactly as word counts are (both directions) |
| Metering.NewPlusBigIntMemoryUsage | runtime/common/metering.go:64-71 | kind is BigInt and the amount is max(words a, words b) + 1 words' worth of bytes |
| CostLemmas.PlusUsageSymmetric | runtime/common/metering.go:64-71 | the addition cost does not depend on operand order |
| CostLemmas.PlusUsageExceedsOperands | runtime/common/metering.go:64-71 | the addition cost strictly exceeds each operand's byte length and equals one of them plus a word |
| Metering.NewMulBigIntMemoryUsage | runtime/common/metering.go:73-78 | kind is BigInt and the amount is words a + words b words' worth of bytes |
| CostLemmas.MulUsageSymmetric | runtime/common/metering.go:73-78 | the multiplication cost does not depend on operand order |
| CostLemmas.MulUsageCoversOperands | runtime/common/metering.go:73-78 | the multiplication cost is at least each operand's byte length and is exactly their sum |
| CostLemmas.BigIntUsageExamples | runtime/common/metering.go:64-78 | with 8-byte words, operands of 8 and 16 bytes are charged 24 for addition and 24 for multiplication |
| Words.SumFits | runtime/common/metering.go:64-71 | if a < B^n and b < B^m then a + b < B^(max(n, m) + 1) |
| Words.ProductFits | runtime/common/metering.go:73-78 | if a < B^n and b < B^m then a * b < B^(n + m) |
| CostLemmas.SumWords | runtime/common/metering.go:64-71 | any valid big integer holding the sum of an n-word and an m-word big integer (any signs) has at most max(n, m) + 1 words |
| CostLemmas.ProductWords | runtime/common/metering.go:73-78 | any valid big integer holding the product of an n-word and an m-word big integer has at most n + m words |
| CostLemmas.PlusChargeSufficient | runtime/common/metering.go:64-71 | for valid a, b and any valid big integer holding a + b, the amount pre-charged for the addition is never less than that result's byte length |
| CostLemmas.MulChargeSufficient | runtime/common/metering.go:73-78 | for valid a, b and any valid big integer holding a * b, the amount pre-charged for the multiplication is never less than that result's byte length |
| CostLemmas.PlusChargeAttained | runtime/common/metering.go:64-71 | the addition charge is a true worst case for n >= 1: any big integer holding the double of an all-ones n-word integer has n + 1 words, exactly the bytes charged (for zero operands the result has no words and the charge is not reached) |
| CostLemmas.MulChargeAttained | runtime/common/metering.go:73-78 | the multiplication charge is a true worst case for n >= 1 and m >= 1: the product of an all-ones n-word and an all-ones m-word integer fills all n + m charged words |
| CostLemmas.IntRangeFollowsWordSize | runtime/common/metering.go:64-71 | the Go int range is the host's: operands of 2^29 words fit the addition cost with 8-byte words but exceed the largest int with 4-byte words |
| CostLemmas.ByteLengthDependsOnWordSize | runtime/common/metering.go:56-62 | the byte length of the same integer 1 is 4 with 4-byte words and 8 with 8-byte words: the charge depends on the host |
| Big.FullWords | runtime/common/metering.go:58-62 | for every n, B^n - 1 is an all-ones integer of exactly n words, so the worst cases above occur at every size |

## Left out

- `MemoryGauge` and its `UseMemory` method (runtime/common/metering.go:31-33): the
  source declares only the interface and no implementation, so there is no
  behaviour to model. Gauge accumulation, per-kind totals, limits and overflow on
  accumulation are left out for the same reason.
- `languageserver/integration/mock_flow_test.go`: a generated test mock of a
  network client. It has no metering logic.
- The internals of `math/big`: the addition and multiplication algorithms are
  not modelled, only their exact results. `Bits()` is the magnitude word vector
  of the abstract integer.
- `unsafe.Sizeof`: the host query becomes the `ws` parameter.
- Metering.NewPlusBigIntMemoryUsage: requires `PlusFits`, which says the Go `int`
  sum `max(...) + wordSize` stays within the host's int range `MaxInt(ws)`. Go
  would wrap silently beyond it. That takes an operand of about 2^31 bytes on a
  32-bit host or 2^63 bytes on a 64-bit host. This is half or more of the
  host's address space.
- Metering.NewMulBigIntMemoryUsage: requires `MulFits`, for the same reason, for
  the sum of the two byte lengths.
- Metering.BigIntByteLength: the Go product `len(words) * wordSize` is an `int`
  and is modelled without a bound, for the same reason.
- Metering.NewStringMemoryUsage: requires a length in the host's int range.
  Negative lengths are not modelled, since a string length is never negative.
  `CostLemmas.NegativeLengthWraps` shows what the conversion would do with one.
- The other memory kinds of the runtime: these constructors do not produce them.
