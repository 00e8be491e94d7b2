# SEAL's Intel HEXL NTT cache, modelled in Dafny

When SEAL is built with the Intel HEXL backend, `native/src/seal/util/intel_seal_ext.h`
keeps a cache of `intel::hexl::NTT` objects, keyed by the transform size `N` and the modulus `p`.
The cache, its lock and `get_ntt`
are declared `static` at namespace scope in the header (lines 32-36), so they have
internal linkage: there is one cache per translation unit that includes the header,
not one per process. `get_ntt(N, p, root)` looks the key up under a shared lock. On a
miss it takes the exclusive lock, looks again, and only if the key is still absent
constructs `NTT(N, p, root)` and `emplace`s it. It then returns a copy of the cached
NTT. `compute_forward_ntt` and `compute_inverse_ntt` resolve the NTT this way and run
the HEXL transform in place on the caller's coefficients. The map's hash is
`HashPair`, a boost-style `hash_combine` of the two components' `std::hash` values.

The project has two modules:

- `hash_pair.dfy` (module `HashPair`): `hash_combine` and `HashPair::operator()` as
  pure functions on 64-bit `size_t` values. Values are naturals below 2^64. Every
  addition and the left shift wrap modulo 2^64 explicitly, the right shift is
  repeated halving, and `^` is a bitwise exclusive or defined digit by digit, with
  its bit-level meaning proved. The main property is that for a fixed first hash the
  combine is a bijection in the second: `UnmixRhs` recovers the second hash.
- `ntt_cache.dfy` (module `NttCache`): an NTT is an opaque value recording the
  `(N, p, root)` it was built from. `Resolve` is `get_ntt` as a function on the map
  value. `After` and `Built` give the cache contents and the constructions after a
  sequence of calls. Class `Cache` holds the map `entries`, a ghost per-key
  construction counter `constructions`, and the foreign constructor's acceptance
  test. Its methods are the read phase (`Find`), the write phase with its re-check
  (`FindOrBuild`), `GetNtt`, `GetNttContended` (other callers' complete `get_ntt`
  calls slotted in between the two phases) and the two compute wrappers. The class
  invariant `Valid` says `constructions == multiset(entries.Keys)`: across every call
  sequence, each key present had exactly one successful construction and no other key
  had any. Constructor calls that throw are not counted.

`get_ntt` returns the NTT by value (line 36), so the model returns a value equal to
the stored entry, not a reference to it, and claims nothing about callers sharing one
instance.

## Model

| member | source | states |
|---|---|---|
| `HashPair.HashCombine` | native/src/seal/util/intel_seal_ext.h:25-29 | `lhs ^ (rhs + 0x9e3779b9 + (lhs << 6) + (lhs >> 2))` with 64-bit wrap-around. Its result determines `rhs` given `lhs`: `UnmixRhs(lhs, h) == rhs` |
| `HashPair.CombineAfterUnmix` | native/src/seal/util/intel_seal_ext.h:25-29 | every 64-bit value is the combine of any given `lhs` with some `rhs`, so the combine is a bijection in its second argument |
| `HashPair.UnmixInverts` | native/src/seal/util/intel_seal_ext.h:27 | undoing the XOR and the three wrapping additions of line 27 gives back `rhs` |
| `HashPair.XorBit` | native/src/seal/util/intel_seal_ext.h:27 | the `^` of the model sets bit `i` exactly when the operands differ in bit `i` |
| `HashPair.XorCancel` | native/src/seal/util/intel_seal_ext.h:27 | `(a ^ b) ^ b == a` |
| `HashPair.XorBelow` | native/src/seal/util/intel_seal_ext.h:27 | `^` of two values below 2^n stays below 2^n, so it never leaves `size_t` |
| `HashPair.Xor64` | native/src/seal/util/intel_seal_ext.h:27 | `^` on two 64-bit values is a 64-bit value, undone by a second `^` with the same operand |
| `HashPair.HashPair` | native/src/seal/util/intel_seal_ext.h:17-23 | the pair's hash is the combine of the first component's hash (as `lhs`) with the second's (as `rhs`), in that order: given the first hash, it determines the second |
| `HashPair.SameFirstCollision` | native/src/seal/util/intel_seal_ext.h:17-23 | two pairs that share their first component collide only when their second components' hashes collide |
| `NttCache.Resolve` | native/src/seal/util/intel_seal_ext.h:36-60 | one `get_ntt` on the map. The result is an NTT iff the key is cached or the constructor accepts. The key set grows by `(N, p)` exactly when an NTT is returned. The result is the entry stored under `(N, p)` afterwards. A hit leaves the map unchanged. A miss returns an NTT built from the caller's `(N, p, root)` |
| `NttCache.ResolvePreserves` | native/src/seal/util/intel_seal_ext.h:32-59 | a call never replaces or removes an entry, and every entry stays built for its own key |
| `NttCache.FirstRootWins` | native/src/seal/util/intel_seal_ext.h:38-46 | the key is `(N, p)` without the root. After one successful call, a second call with any other root returns the same NTT (built from the first root on a miss) and changes nothing |
| `NttCache.DistinctKeysDistinctEntries` | native/src/seal/util/intel_seal_ext.h:38-59 | keys that differ in `N` or `p` get distinct NTTs, and the first stays cached under its key |
| `NttCache.AfterExtends` | native/src/seal/util/intel_seal_ext.h:32-59 | over any call sequence, entries present before keep their values, and only keys that were asked for are added |
| `NttCache.BuiltOncePerNewKey` | native/src/seal/util/intel_seal_ext.h:50-58 | over any call sequence, the constructions are exactly the keys the sequence added, each counted once, and none is for a key already cached |
| `NttCache.ServeConstructionBound` | native/src/seal/util/intel_seal_ext.h:50-58 | over any call sequence, the count for each `(N, p)` rises by at most one, and by none for a cached key. The total is at most the number of distinct keys asked for |
| `NttCache.AfterSnoc` | native/src/seal/util/intel_seal_ext.h:36-60 | serving one more call applies one more `get_ntt` to the cache reached so far |
| `NttCache.BuiltSnoc` | native/src/seal/util/intel_seal_ext.h:50-58 | serving one more call adds its construction, if any, to those counted so far |
| `NttCache.Cache.constructor` | native/src/seal/util/intel_seal_ext.h:32 | the cache starts empty, with no constructions, and satisfies its invariant |
| `NttCache.Cache.Find` | native/src/seal/util/intel_seal_ext.h:42-47 | the read phase returns the entry for `(N, p)` iff one is cached, and changes nothing |
| `NttCache.Cache.FindOrBuild` | native/src/seal/util/intel_seal_ext.h:51-59 | the write phase re-checks the key, from any valid state. If present, it returns that entry with no construction and no change. If absent, it constructs once and inserts. The invariant is kept |
| `NttCache.Cache.GetNtt` | native/src/seal/util/intel_seal_ext.h:36-60 | `get_ntt` behaves as `Resolve` and bumps the counter for `(N, p)` only on a constructing miss. Its result equals the entry for `(N, p)` afterwards. Earlier entries keep their values, and the key set becomes the old one plus `(N, p)` |
| `NttCache.Cache.ServeOthers` | native/src/seal/util/intel_seal_ext.h:36-60 | other callers' `get_ntt` calls, served one after another, take the cache to `After` and add `Built` to the counter |
| `NttCache.Cache.GetNttContended` | native/src/seal/util/intel_seal_ext.h:40-59 | with arbitrary other calls between the read and write phases, the result is still the cached entry. If another caller inserted `(N, p)` meanwhile, that entry is returned and no second NTT is built. `(N, p)` is never constructed more than once |
| `NttCache.Cache.ComputeForwardNtt` | native/src/seal/util/intel_seal_ext.h:62-67 | the cache effect is exactly that of `get_ntt`. If the NTT constructor throws, the operand is untouched |
| `NttCache.Cache.ComputeInverseNtt` | native/src/seal/util/intel_seal_ext.h:69-74 | the cache effect is exactly that of `get_ntt`. If the NTT constructor throws, the operand is untouched |

## Left out

- The reader/writer locks (`ReaderWriterLocker`, `ReaderLock`, `WriterLock`) and every
  claim about parallel readers, blocking or publication safety: the model is
  sequential. Concurrency appears only as other callers' complete `get_ntt` calls
  between the two phases (`GetNttContended`), the order the writer lock allows.
- The separate caches of different translation units: `Cache` models one instance of
  `ntt_cache_` with its lock, so the bounds of `GetNttContended` and
  `ServeConstructionBound` (at most one NTT per `(N, p)`) hold per translation unit.
  Two translation units may each build an NTT for the same key.
- Constructor calls that throw: `constructions` counts successful constructions only.
  A miss whose arguments the constructor rejects calls it again on every such call.
- The internals of `intel::hexl::NTT`: which `(N, p, root)` its constructor accepts is
  the parameter `accepts`, and a rejection stands for the exception that reaches the
  caller with the cache unchanged. Other exceptions, such as allocation failure, are
  not modelled.
- `NttCache.Cache.ComputeForwardNtt`: does not state the transformed coefficients. The
  HEXL forward transform is `HexlComputeForward`, which may overwrite the operand in any
  way. The forward/inverse round trip is therefore not stated either.
- `NttCache.Cache.ComputeInverseNtt`: does not state the transformed coefficients, for
  the same reason (`HexlComputeInverse`).
- `std::hash<uint64_t>` is implementation-defined, so `HashPair` takes the component
  hashes as function parameters.
- The bucket structure of `std::unordered_map`: the cache is a Dafny `map`, so lookups
  depend on key equality only, and `HashPair` is modelled but not wired into lookups.
- `CoeffIter` is an `array<U64>`, and the `SEAL_USE_INTEL_HEXL` compile-time guard is
  not modelled. `size_t` is taken to be 64 bits wide, as is `uint64_t`.

