# alpmap SIMD group-scanning backends in Dafny

This project models the two vector backends of the `alp::Set` open-addressing
hash table. Each slot of the table has a one-byte control byte: `0x80` is
Empty, `0xFE` is Deleted (a tombstone), `0xFF` is the Sentinel after the last
group, and any other byte marks a full slot. A backend loads a group of
control bytes into a vector register. It compares every lane at once and
turns the comparison into a mask. The table then asks whether any lane
matched, which lane matched first, and for the mask as a scalar bitmask to
iterate over.

- `SseBackend` (`sse.dfy`) has a fixed group of 16 lanes in one SSE2
  register. A mask is the 16-bit result of `_mm_movemask_epi8` in a
  `std::uint32_t`. `matchFull` takes "top bit clear" to mean full.
- `EveBackend` (`eve.dfy`) has as many lanes as the platform's native byte
  vector, capped at 64. A mask is an `eve::logical` with one boolean per lane,
  and `toBits` packs it into a `std::uint64_t`. `matchFull` takes "not Empty,
  not Deleted, not Sentinel" to mean full.

Shared pieces:

- `Ctrl` (`ctrl.dfy`) holds the control-byte vocabulary and both notions of
  "full".
- `GroupContract` (`group_contract.dfy`) is the lane-level contract that
  both backends implement: matching lanes, empty lanes, full lanes, any
  lane, and the first true lane.
- `Bits` (`bits.dfy`) treats an unsigned machine word as a natural number
  below 2^w. It defines the bit operations the backends use, each with a
  lemma about every bit: word-wide complement, AND, `std::countr_zero`, and
  packing one bit per lane.
- `BackendEquivalence` (`equivalence.dfy`) proves that each backend refines
  the contract. It also proves that the backends are interchangeable. On a
  16-lane platform they give the same answer for `match`, `matchEmpty`,
  `any` and `firstTrue`, and for `matchFull` when every byte of the group
  is a control byte the table writes. A group of `0x81` bytes shows the
  two `matchFull` rules disagree off that vocabulary.

The SSE intrinsics are modelled by their documented lane semantics.
`SseBackend.Set1` is `_mm_set1_epi8`: one byte in every lane.
`SseBackend.CmpEq` is `_mm_cmpeq_epi8`: `0xFF` in each equal lane and `0x00`
elsewhere. `SseBackend.Movemask` is `_mm_movemask_epi8`: the top bit of
byte i goes into bit i, and bits 16 to 31 stay clear. `SseBackend.TopBits`
lists those top bits lane by lane. The EVE operators are modelled lane by
lane. `EveBackend.Splat` is `ctrl_simd(v)`, the broadcast of a scalar
operand. `EveBackend.EqLanes`, `EveBackend.NeLanes` and
`EveBackend.AndLanes` are `==`, `!=` and `&&` on wides and logicals.
`EveBackend.AnyFrom` is the scan behind `eve::any`. `EveBackend.FirstTrueFrom`
is the scan behind `eve::first_true`. `Bits.FromLanes` is `eve::top_bits`,
one bit per lane. The native lane count
`eve::expected_cardinal_v<std::uint8_t>` depends on the target, so every EVE
function takes it as a parameter: any positive lane count.

A mask is a `nat` with an explicit width (`Uint32`, `Uint64`). Bit i of a
mask is its i-th binary digit. Bitwise NOT and AND are defined digit by
digit. `~m & 0xFFFF` in `SseBackend::matchFull` is therefore computed as it
is written: a 32-bit complement, then an AND with `0xFFFF`.

The comment at src/backends/eve.hpp:40 documents `matchFull` as "not empty,
deleted, or sentinel", and the EVE code tests exactly that. The SSE code
tests "top bit clear" instead. The model follows each backend's code. It
proves the two rules agree on control bytes (a fingerprint below `0x80`,
Empty, Deleted or Sentinel) and differ on other bytes such as `0x81`. The
EVE lane count is the native width for `std::uint8_t`.

## Model

| member | source | states |
|---|---|---|
| `SseBackend.Load` | src/backends/sse.hpp:20-23 | The register is the 16 bytes at `mem[ptr]` through `mem[ptr+15]`. The caller must supply 16 readable bytes from `ptr` on. |
| `SseBackend.Movemask` | src/backends/sse.hpp:28 | Bit i of the mask is the top bit of byte i for i < 16. No bit at 16 or above is set. |
| `SseBackend.Match` | src/backends/sse.hpp:25-29 | Bit i is set iff byte i equals `val`, for every lane i < 16. The mask is below `0x10000`, so no bit at 16 or above is set. |
| `SseBackend.MatchEmpty` | src/backends/sse.hpp:31-35 | Bit i is set iff byte i is Empty (`0x80`). The mask is below `0x10000` and equals `Match(reg, 0x80)`. |
| `SseBackend.MatchFull` | src/backends/sse.hpp:37-40 | Bit i is set iff byte i has its top bit clear. The mask is below `0x10000`. A set bit never marks an Empty, Deleted or Sentinel byte. |
| `SseBackend.FullEmptyDisjoint` | src/backends/sse.hpp:31-40 | `matchFull(reg) & matchEmpty(reg) == 0` for every register. |
| `SseBackend.Any` | src/backends/sse.hpp:42 | True iff some bit among bits 0 to 31 of the mask is set. |
| `SseBackend.FirstTrue` | src/backends/sse.hpp:44-51 | Nothing iff the mask is 0. Otherwise the index is below 32, its bit is set, and every lower bit is clear. |
| `SseBackend.FirstTrueOfGroupMask` | src/backends/sse.hpp:44-51 | On a 16-bit mask, as every `match*` returns, the index is below 16. |
| `SseBackend.ToBits` | src/backends/sse.hpp:53 | The scalar bitmask has exactly the bits of the mask. |
| `Bits.CountrZero` | src/backends/sse.hpp:50 | The result is at most the width. Every bit below it is clear, and the bit at it is set unless the result equals the width. |
| `Bits.BitOfNot` | src/backends/sse.hpp:39 | Bit i of the w-bit complement is set iff i < w and bit i of the operand is clear. |
| `Bits.BitOfAnd` | src/backends/sse.hpp:39 | Bit i of `a & b` is set iff bit i is set in both. |
| `Bits.BitOfFromLanes` | src/backends/eve.hpp:55 | Packing lanes into a word sets bit i iff lane i exists and is true. |
| `EveBackend.CappedSize` | src/backends/eve.hpp:16-19 | The lane count is between 1 and 64. It equals the native count when that is at most 64, and 64 otherwise. |
| `EveBackend.GroupSize` | src/backends/eve.hpp:26 | Between 1 and 64, so a mask of that many bits fits in a `std::uint64_t`. |
| `EveBackend.Load` | src/backends/eve.hpp:32 | The register is the `GroupSize` bytes at `mem[ptr]` and after. |
| `EveBackend.Match` | src/backends/eve.hpp:35 | A mask of `GroupSize` lanes. Lane i is true iff byte i equals `val`. |
| `EveBackend.MatchEmpty` | src/backends/eve.hpp:38 | Lane i is true iff byte i is Empty (`0x80`). |
| `EveBackend.MatchFull` | src/backends/eve.hpp:41-46 | Lane i is true iff byte i is none of `0x80`, `0xFE` and `0xFF`. The mask is disjoint from `matchEmpty`. |
| `EveBackend.Any` | src/backends/eve.hpp:49 | True iff some lane of the mask is true. |
| `EveBackend.FirstTrue` | src/backends/eve.hpp:52 | Nothing iff no lane is true. Otherwise it is the lowest true lane, which is below `GroupSize`. |
| `EveBackend.ToBits` | src/backends/eve.hpp:55 | Bit i is set iff lane i is true. No bit at `GroupSize` or above is set. |
| `Ctrl.FullRulesAgree` | src/backends/eve.hpp:41-46 | On control bytes, "not Empty, Deleted or Sentinel" holds iff the top bit is clear. |
| `Ctrl.TopBitClearIsFull` | src/backends/sse.hpp:37-40 | A byte with its top bit clear is none of the three markers. |
| `GroupContract.FullEmptyDisjoint` | src/backends/eve.hpp:38-46 | In the contract, no lane is both full and empty. |
| `GroupContract.FirstTrueUnique` | src/backends/eve.hpp:52 | The mask alone determines the `firstTrue` answer. |
| `BackendEquivalence.SseMatchRefines` | src/backends/sse.hpp:25-29 | SSE `match` is the packed form of the contract's matching lanes. |
| `BackendEquivalence.SseMatchEmptyRefines` | src/backends/sse.hpp:31-35 | SSE `matchEmpty` is the packed form of the contract's empty lanes. |
| `BackendEquivalence.SseMatchFullRefines` | src/backends/sse.hpp:37-40 | On a group of control bytes, SSE `matchFull` is the packed form of the contract's full lanes. |
| `BackendEquivalence.SseAnyRefines` | src/backends/sse.hpp:42 | SSE `any` on a packed 16-lane mask is true iff some lane is true. |
| `BackendEquivalence.SseFirstTrueRefines` | src/backends/sse.hpp:44-51 | SSE `firstTrue` on a packed 16-lane mask gives the contract's answer: nothing, or the lowest true lane below 16. |
| `BackendEquivalence.EveMatchesRefine` | src/backends/eve.hpp:35-46 | EVE `match`, `matchEmpty` and `matchFull` are exactly the contract's lane masks. |
| `BackendEquivalence.MatchAgrees` | src/backends/eve.hpp:35 | On a 16-lane platform, EVE `toBits(match(reg, v))` equals SSE `toBits(match(reg, v))` for every group and byte. |
| `BackendEquivalence.MatchEmptyAgrees` | src/backends/eve.hpp:38 | On a 16-lane platform, both backends give the same `matchEmpty` bitmask for every group. |
| `BackendEquivalence.MatchFullAgrees` | src/backends/eve.hpp:41-46 | On a 16-lane platform and a group of control bytes, EVE's `matchFull` bitmask equals SSE's top-bit-clear bitmask. |
| `BackendEquivalence.MatchFullDiffersOffVocabulary` | src/backends/sse.hpp:37-40 | For a group of `0x81` bytes, EVE marks lane 0 full and SSE does not, so the two `matchFull` bitmasks differ. |
| `BackendEquivalence.AnyAgrees` | src/backends/eve.hpp:49 | For the same 16 lanes, EVE `any` on the mask equals SSE `any` on its packed form. |
| `BackendEquivalence.FirstTrueAgrees` | src/backends/eve.hpp:52 | For the same 16 lanes, EVE `firstTrue` on the mask equals SSE `firstTrue` on its packed form. |
| `BackendEquivalence.MatchScanAgrees` | src/backends/eve.hpp:35-52 | On a 16-lane platform, for every group and byte, `any(match(reg, v))` and `firstTrue(match(reg, v))` give the same answer in both backends. |

## Left out

- The model covers only the two backend headers. The `alp::Set` container is not modelled: probing, insert, find, erase, rehash, copy, iteration, and the hash, storage and load-factor policies.
- Memory is a byte sequence. Both `load` functions take the caller's promise of enough readable bytes as a precondition, where the C++ code would read out of bounds. Unaligned access and pointer provenance are not modelled.
- The internals of the EVE library and of the SSE2 intrinsics are not modelled. Only their lane-by-lane meaning is. EVE's register and mask types are sequences whose length is required to be `GroupSize`, where C++ fixes the length in the type.
- The native EVE lane count is a parameter that may be any positive number. The model does not check it against real targets, where it is a power of two.
- The signed `int` result of `_mm_movemask_epi8`, and its conversion to `std::uint32_t`, are modelled directly as the unsigned 16-bit value. Bits 16 to 31 are clear, so the conversion never changes the value.
- `EveBackend.ToBits` assumes one bit per lane, the layout `eve::top_bits` has where a movemask instruction exists (as on x86, the only setting where `SseBackend` exists too). Targets on which `eve::top_bits` uses more than one bit per lane are not modelled.
