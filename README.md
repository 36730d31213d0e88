# Phase-aware block positions and map database keys

This project models two small parts of a Luanti-derived voxel engine that adds a fourth
axis, the *phase*, to block positions. Many independent worlds can then share the same
X/Y/Z range. The model covers two things.

- **`v4s16`** (`irr_v3d.dfy`, module `IrrV3d`) is a value type of four `s16` components X, Y, Z and P.
  - It has a four-argument constructor with `p = 0` (`Make`).
  - It has a constructor from a `v3s16` plus an optional phase (`FromV3`).
  - It has the defaulted constructor (`DefaultInit`). Only P has a default member initialiser, so a default-initialised `v4s16 pos;` with automatic storage leaves X, Y and Z indeterminate. They become parameters of the model. Value-initialisation (`v4s16()`, `v4s16{}`) and static storage zero the object first and give (0,0,0,0).
  - It has componentwise `==` and `!=` (`Eq`, `Neq`) and the projection `toV3s16` (`ToV3s16`).
  - Its `Hash` puts the u16 bit pattern of each component in its own 16-bit lane of a 64-bit `size_t`: X in bits 48–63, Y in 32–47, Z in 16–31, P in 0–15. The lanes are combined with `^`.
- **`MapDatabase` key codecs** (`map_database.dfy`, module `MapDatabase`) turn a block position into a signed 64-bit database key and back.
  - The legacy three-axis scheme computes `Z·2^24 + Y·2^12 + X`. Its decoder adds `0x800800800`, reads three 12-bit groups and subtracts `0x800` from each.
  - The phase-aware scheme stores the u16 patterns of X, Y, Z and P in bits 0–15, 16–31, 32–47 and 48–63 (`GetBlockAsInteger4`, `GetIntegerAsBlock4`).
  - The two C++ overloads of `getIntegerAsBlock(s64)` differ only in return type. Here they are `GetIntegerAsBlock3` and `GetIntegerAsBlock4`.

`cpp_int.dfy` (module `CppInt`) holds the C++ integer vocabulary on unbounded `int`:
- `S16`, `U16`, `S64` and `U64` (a 64-bit `size_t`).
- The casts `(u16)`, `(s16)` and `(s64)`, each taken modulo 2^N.
- `<<` on `s64` and on `size_t`, and the arithmetic `>>` on `s64` (floor division).
- `&` with a low-bit mask (a non-negative remainder).
- `^` (`Xor`, a bitwise exclusive or on naturals).

C++20 semantics are used throughout: conversions and signed left shifts wrap modulo 2^N, and `>>` on a negative value is arithmetic.

What is proved, in short:
- **Constructors.** Three arguments mean phase 0. The two constructors agree. Projecting to `v3s16` drops only the phase.
- **Equality and hash.** `==` is value equality, so positions differing only in phase are distinct, and `!=` is its negation.
- The hash's exclusive or equals the packed sum of the four lanes. This makes the hash injective: any change to one component changes it, and each component can be read back from its lane. Every 64-bit word is the hash of some position, so the hash is a bijection between `s16^4` and 64-bit words.
- **Legacy codec.** Decoding undoes encoding for components in [-2048, 2047], and encoding is injective there.
- Every key decodes to components in [-2048, 2047]. The decoder reads only the key modulo 2^36.
- Outside that range keys collide: (4096,0,0) and (0,1,0) both get key 4096.
- **Phase-aware codec.** The bit layout of the key is exactly the groups the decoder reads, and the key is negative exactly when the phase is.
- Decoding undoes encoding for every `s16` position, and every `s64` key re-encodes to itself. The codec is therefore a bijection between `s16^4` and `s64`.

Three facts about the code that are easy to miss:
- The hash puts X in the highest lane and P in the lowest, the reverse of the key layout.
- The legacy decoder returns, and round-trips, the full range [-2048, 2047].
- The two schemes give a phase-0 position different keys (`SchemesDisagreeAtPhaseZero`), and nothing in the modelled code tags or migrates keys. So no agreement between the schemes is stated.

## Model

| member | source | states |
|---|---|---|
| `CppInt.ToU16` | src/irr_v3d.h:34-37 | `(u16)x` is the u16 value congruent to x modulo 2^16 |
| `CppInt.ToS16` | src/database/database.cpp:50-53 | `(s16)x` is the s16 value congruent to x modulo 2^16, and is x itself when x already fits |
| `CppInt.ToS64` | src/database/database.cpp:24 | the s64 addition wraps to the value congruent modulo 2^64; it is the exact sum when that fits |
| `CppInt.ShlS64` | src/database/database.cpp:17 | `(s64)x << n` is the product x·2^n wrapped into s64: congruent modulo 2^64, and exact when it fits |
| `CppInt.ShrS64` | src/database/database.cpp:51-53 | `i >> n` on s64 is the floor of i / 2^n (arithmetic shift) |
| `CppInt.LowBits` | src/database/database.cpp:26-28 | `i & (2^k-1)` is in [0, 2^k) and congruent to i modulo 2^k |
| `CppInt.ShlU64` | src/irr_v3d.h:40-42 | `(size_t)x << n` is the exact product when nothing is shifted out of 64 bits |
| `CppInt.Xor` | src/irr_v3d.h:40-43 | bitwise `^` on naturals is addition without carries: it never exceeds the sum of its operands |
| `CppInt.XorU64` | src/irr_v3d.h:40-43 | `a ^ b` on size_t stays in 64 bits and xor-ing with b again gives a back |
| `CppInt.S16BitPattern` | src/irr_v3d.h:33-37 | an s16 reinterpreted as u16 and back is unchanged; negative values map to x + 2^16 |
| `CppInt.U16BitPattern` | src/database/database.cpp:50-53 | a u16 pattern reinterpreted as s16 and back is unchanged |
| `CppInt.ToU16Injective` | src/irr_v3d.h:33-37 | distinct s16 values have distinct u16 bit patterns (no sign-extension aliasing) |
| `IrrV3d.Make` | src/irr_v3d.h:22 | the four-argument constructor stores x, y, z as the triple `toV3s16` reads back and p as the phase |
| `IrrV3d.FromV3` | src/irr_v3d.h:22-25 | the v3s16 constructor gives the same value as the four-argument constructor |
| `IrrV3d.Eq` | src/irr_v3d.h:48-51 | `==` holds exactly when the two positions are the same value, phase included |
| `IrrV3d.Neq` | src/irr_v3d.h:54-56 | `!=` holds exactly when the positions differ |
| `IrrV3d.ToV3s16` | src/irr_v3d.h:59-61 | re-extending the projected triple with the original phase gives the position back |
| `IrrV3d.Hash` | src/irr_v3d.h:31-45 | the xor of the four shifted u16 lanes equals X·2^48 + Y·2^32 + Z·2^16 + P on the u16 patterns |
| `IrrV3d.DefaultInit` | src/irr_v3d.h:19-28 | the defaulted constructor sets P to 0, and the result is (0,0,0,0) exactly when the storage held zeros in X, Y and Z |
| `IrrV3d.Origin` | src/irr_v3d.h:19-28 | the intended default position is (0,0,0,0), equals `v4s16(0,0,0)` and hashes to 0 |
| `IrrV3d.ThreeArgumentsMeanPhaseZero` | src/irr_v3d.h:19-22 | three arguments give P == 0 and X, Y, Z equal to the arguments |
| `IrrV3d.ProjectionRoundTrip` | src/irr_v3d.h:59-61 | building from a v3s16 with any phase and projecting back returns the triple; with no phase P is 0 |
| `IrrV3d.ConstructorsAgree` | test_4d_compilation.cpp:8-19 | `v4s16(x,y,z,p) == v4s16(v3s16(x,y,z),p)`, with and without a phase |
| `IrrV3d.DefaultInitPhaseOnly` | src/irr_v3d.h:19-28 | a default-constructed position has P == 0 and X, Y, Z are whatever the storage held |
| `IrrV3d.DefaultInitNotAlwaysOrigin` | test_4d_compilation.cpp:10 | a default-constructed position can differ from (0,0,0,0) |
| `IrrV3d.PhaseDistinguishes` | src/irr_v3d.h:48-51 | changing only the phase makes `==` false unless the phase is unchanged |
| `IrrV3d.HashLanes` | src/irr_v3d.h:40-43 | each component's u16 pattern is read back from its own 16-bit lane of the hash |
| `IrrV3d.HashConsistentWithEq` | src/irr_v3d.h:31-51 | equal positions hash equally |
| `IrrV3d.HashInjective` | src/irr_v3d.h:40-43 | two positions hash equally if and only if they are equal |
| `IrrV3d.HashOnto` | src/irr_v3d.h:31-45 | every 64-bit word is the hash of the position read from its four 16-bit lanes, so with `HashInjective` the hash is a bijection |
| `IrrV3d.HashSeesEachComponent` | src/irr_v3d.h:40-43 | changing any single component (X, Y, Z or P) changes the hash |
| `MapDatabase.GetBlockAsInteger3` | src/database/database.cpp:15-18 | the legacy key is Z·2^24 + Y·2^12 + X, with no wrap-around for s16 components |
| `MapDatabase.GetIntegerAsBlock3` | src/database/database.cpp:21-29 | every decoded component lies in [-2048, 2047], for any s64 key |
| `MapDatabase.LegacyOriginIsZero` | src/database/database.cpp:12-17 | (0,0,0) maps to key 0 |
| `MapDatabase.LegacyRoundTrip` | src/database/database.cpp:15-29 | for X, Y, Z in [-2048, 2047], decoding the key gives the position back |
| `MapDatabase.LegacyInjectiveInRange` | src/database/database.cpp:15-18 | within [-2048, 2047] equal keys mean equal positions |
| `MapDatabase.LegacyCollisionOutsideRange` | src/database/database.cpp:10-17 | (4096,0,0) and (0,1,0) both encode to 4096, which decodes to (0,1,0) |
| `MapDatabase.LegacyDecodeReadsLow36` | src/database/database.cpp:24-28 | keys that differ by a multiple of 2^36 decode to the same position |
| `MapDatabase.PhaseLaneShift` | src/database/database.cpp:42 | `(s64)(u16)P << 48` wraps to the signed phase times 2^48 |
| `MapDatabase.GetBlockAsInteger4` | src/database/database.cpp:32-44 | the key is P·2^48 + (u16)Z·2^32 + (u16)Y·2^16 + (u16)X, negative exactly when P < 0 |
| `MapDatabase.KeyLayout4` | src/database/database.cpp:41-53 | bits 0-15, 16-31, 32-47 and 48-63 of the key hold the u16 patterns of X, Y, Z and P |
| `MapDatabase.OriginKey4` | src/database/database.cpp:42-43 | the key is 0 exactly for the all-zero position |
| `MapDatabase.RoundTrip4` | src/database/database.cpp:32-54 | for every s16 position, decoding the key gives the position back |
| `MapDatabase.GetIntegerAsBlock4` | src/database/database.cpp:46-54 | every s64 key decodes to a position whose key is that same value, so the codec is onto the key space |
| `MapDatabase.Injective4` | src/database/database.cpp:32-44 | two positions have equal keys if and only if they are equal |
| `MapDatabase.SchemesDisagreeAtPhaseZero` | src/database/database.cpp:15-44 | the legacy key and the phase-aware key of the phase-0 position (0,1,0) differ |

## Left out

- The Irrlicht `vector3d` template and the float/double vector types are not part of this model. They are a foreign library and floating point. `v3s16` is a plain triple of `s16`.
- The width of `size_t` is fixed at 64 bits. On a 32-bit target the hash's shift by 48 is undefined, and that case is not modelled.
- Before C++20, a left shift of a negative signed value is undefined and an out-of-range conversion to a signed type is implementation-defined. Neither is modelled: C++20's modular results are used.
- The legacy decoder's `i + 0x800800800` overflows `s64` for keys within 0x800800800 of the maximum. That is undefined behaviour in C++. The model wraps modulo 2^64 instead (`ToS64`). The decoded value depends only on the low 36 bits, so the choice does not change any result.
- The indeterminate X, Y and Z of a default-constructed `v4s16` are parameters of `DefaultInit`. Reading them in C++ is undefined behaviour, which the model does not capture.
- The block store and its locking, the orphan-before-delete lifecycle, the phase registry, the void generator and seed derivation are not part of this model. No file of the modelled source contains them.
- The test drivers' printing, `std::unordered_map` use and the `operator<<` they call are not part of this model. `operator<<` is defined in no modelled file.
- The SQL schema string checked by `test_database_fix.cpp` is not part of this model. It has no logic to model.

## Findings

| source | as written | input that shows it | evidently intended | confidence | as-written member | corrected member |
|---|---|---|---|---|---|---|
| src/irr_v3d.h:19-28 | `v4s16() = default;` initialises only P, so the default-initialised `v4s16 pos3;` (automatic storage) leaves X, Y and Z indeterminate. Hashing or comparing that value reads them. Value-initialisation (`v4s16()`, `v4s16{}`) already yields the origin, since the constructor is not user-provided. | storage that held X = 1: `DefaultInit(1, 0, 0)` is not (0,0,0,0) | the origin (0,0,0,0), as the comment at test_4d_compilation.cpp:10 expects (for example `s16 X = 0, Y = 0, Z = 0, P = 0;`) | high for the indeterminate fields; not executed | `IrrV3d.DefaultInitNotAlwaysOrigin` | `IrrV3d.Origin` |
