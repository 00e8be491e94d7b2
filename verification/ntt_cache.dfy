/**
 The cache of NTT objects used when the Intel HEXL backend is enabled. The cache, its
 lock and `get_ntt` are `static` at namespace scope in a header, so each translation
 unit that includes the header has its own copy; one `Cache` is one such copy.
 `get_ntt` looks a transform up by its key `(N, p)` and builds it from `(N, p, root)`
 on a miss. It does so in two phases: a read phase under a shared lock, then a write
 phase under an exclusive lock that checks the key again before it constructs anything.
 The locks themselves are not modelled. What is modelled is the map operation each
 phase performs, and the fact that any number of other callers' insertions may happen
 between the two phases.
 */
module NttCache {

  /** `uint64_t` (and `size_t`, taken to be 64 bits wide). */
  newtype U64 = x: int | 0 <= x < 0x1_0000_0000_0000_0000

  /** The cache key `(N, p)`: transform size and modulus. The root is not part of it. */
  type Key = (U64, U64)

  /** An `intel::hexl::NTT`, kept abstract: only the `(N, p, root)` it was built from.
      It is kept apart from `Request` although the fields coincide: a `Request` is the
      arguments of a call, an `Ntt` the object the library constructed, and only the
      latter is stored in the cache and returned. */
  datatype Ntt = Ntt(degree: U64, modulus: U64, root: U64)

  /** The arguments of one `get_ntt(N, p, root)` call. */
  datatype Request = Request(degree: U64, modulus: U64, root: U64)
  {
    function CacheKey(): Key
    {
      (degree, modulus)
    }
  }

  datatype Option<T> = None | Some(value: T)

  /** The outcome of resolving a transform: the NTT returned by value, or `Rejected`
      when the NTT constructor throws (the exception reaches the caller). */
  datatype Result<T> = Ok(value: T) | Rejected

  /** Whether the foreign NTT constructor accepts the arguments `(N, p, root)`.
      Its validation rules belong to the HEXL library and are a parameter here. */
  type Accepts = Request -> bool

  /** Every cached NTT was built for the key it is stored under. */
  ghost predicate WellKeyed(m: map<Key, Ntt>)
  {
    forall k | k in m :: (m[k].degree, m[k].modulus) == k
  }

  /** Whether resolving `q` against the cache contents `m` constructs a new NTT:
      the key is absent and the constructor does not throw. */
  predicate Constructs(m: map<Key, Ntt>, accepts: Accepts, q: Request)
  {
    q.CacheKey() !in m && accepts(q)
  }

  /** One `get_ntt` call on the cache contents `m`: the new contents and the result.
      Entries are only added, never replaced or removed; the result is always the entry
      stored under `(N, p)`; a miss builds from the caller's own `(N, p, root)`. */
  function Resolve(m: map<Key, Ntt>, accepts: Accepts, q: Request): (res: (map<Key, Ntt>, Result<Ntt>))
    ensures res.1.Ok? <==> q.CacheKey() in m || accepts(q)
    ensures res.0.Keys == if res.1.Ok? then m.Keys + {q.CacheKey()} else m.Keys
    ensures res.1.Ok? ==> res.0[q.CacheKey()] == res.1.value
    ensures q.CacheKey() in m ==> res.0 == m
    ensures q.CacheKey() !in m && res.1.Ok? ==> res.1.value == Ntt(q.degree, q.modulus, q.root)
  {
    var k := q.CacheKey();
    if k in m then
      (m, Ok(m[k]))
    else if accepts(q) then
      var t := Ntt(q.degree, q.modulus, q.root);
      (m[k := t], Ok(t))
    else
      (m, Rejected)
  }

  /** A call never replaces or removes an entry, and keeps every entry built for its key. */
  lemma ResolvePreserves(m: map<Key, Ntt>, accepts: Accepts, q: Request)
    ensures var m' := Resolve(m, accepts, q).0;
            && (forall k | k in m :: k in m' && m'[k] == m[k])
            && (WellKeyed(m) ==> WellKeyed(m'))
  {
  }

  /** The keys of a sequence of requests. */
  function KeysOf(qs: seq<Request>): set<Key>
  {
    set i | 0 <= i < |qs| :: qs[i].CacheKey()
  }

  /** The cache contents after serving the calls `qs` in order, starting from `m`. */
  function After(m: map<Key, Ntt>, accepts: Accepts, qs: seq<Request>): map<Key, Ntt>
    decreases |qs|
  {
    if qs == [] then m else After(Resolve(m, accepts, qs[0]).0, accepts, qs[1..])
  }

  /** The keys for which an NTT is constructed while serving `qs` from `m`, counted
      with multiplicity. */
  function Built(m: map<Key, Ntt>, accepts: Accepts, qs: seq<Request>): multiset<Key>
    decreases |qs|
  {
    if qs == [] then multiset{}
    else
      (if Constructs(m, accepts, qs[0]) then multiset{qs[0].CacheKey()} else multiset{})
      + Built(Resolve(m, accepts, qs[0]).0, accepts, qs[1..])
  }

  /** Serving one more call extends the run by one `Resolve`. */
  lemma {:induction false} AfterSnoc(m: map<Key, Ntt>, accepts: Accepts, qs: seq<Request>, q: Request)
    ensures After(m, accepts, qs + [q]) == Resolve(After(m, accepts, qs), accepts, q).0
    decreases |qs|
  {
    if qs == [] {
      assert (qs + [q])[1..] == [];
    } else {
      assert (qs + [q])[1..] == qs[1..] + [q];
      AfterSnoc(Resolve(m, accepts, qs[0]).0, accepts, qs[1..], q);
    }
  }

  /** The constructions of one more call are added to those of the run before it. */
  lemma {:induction false} BuiltSnoc(m: map<Key, Ntt>, accepts: Accepts, qs: seq<Request>, q: Request)
    ensures Built(m, accepts, qs + [q])
         == Built(m, accepts, qs)
          + if Constructs(After(m, accepts, qs), accepts, q) then multiset{q.CacheKey()} else multiset{}
    decreases |qs|
  {
    if qs == [] {
      assert (qs + [q])[1..] == [];
    } else {
      assert (qs + [q])[1..] == qs[1..] + [q];
      BuiltSnoc(Resolve(m, accepts, qs[0]).0, accepts, qs[1..], q);
    }
  }

  /** One more call of a run, as a step from the state after `qs[..i]` to the state
      after `qs[..i + 1]`. */
  lemma ServeStep(m: map<Key, Ntt>, accepts: Accepts, qs: seq<Request>, i: nat,
                  c0: multiset<Key>, e: map<Key, Ntt>, c: multiset<Key>, e': map<Key, Ntt>, c': multiset<Key>)
    requires i < |qs|
    requires e == After(m, accepts, qs[..i]) && c == c0 + Built(m, accepts, qs[..i])
    requires e' == Resolve(e, accepts, qs[i]).0
    requires c' == c + if Constructs(e, accepts, qs[i]) then multiset{qs[i].CacheKey()} else multiset{}
    ensures e' == After(m, accepts, qs[..i + 1]) && c' == c0 + Built(m, accepts, qs[..i + 1])
  {
    assert qs[..i + 1] == qs[..i] + [qs[i]];
    AfterSnoc(m, accepts, qs[..i], qs[i]);
    BuiltSnoc(m, accepts, qs[..i], qs[i]);
  }

  /** Over any sequence of calls, entries already present keep their value and only
      keys that were asked for are added. */
  lemma {:induction false} AfterExtends(m: map<Key, Ntt>, accepts: Accepts, qs: seq<Request>)
    ensures m.Keys <= After(m, accepts, qs).Keys <= m.Keys + KeysOf(qs)
    ensures forall k | k in m :: After(m, accepts, qs)[k] == m[k]
    decreases |qs|
  {
    if qs != [] {
      var m1 := Resolve(m, accepts, qs[0]).0;
      ResolvePreserves(m, accepts, qs[0]);
      AfterExtends(m1, accepts, qs[1..]);
      KeysOfCons(qs);
    }
  }

  /** Over any sequence of calls, an NTT is constructed exactly once for each key the
      calls add to the cache, and never for a key that was already present. */
  lemma {:induction false} BuiltOncePerNewKey(m: map<Key, Ntt>, accepts: Accepts, qs: seq<Request>)
    ensures Built(m, accepts, qs) == multiset(After(m, accepts, qs).Keys - m.Keys)
    decreases |qs|
  {
    if qs != [] {
      var q := qs[0];
      var m1 := Resolve(m, accepts, q).0;
      BuiltOncePerNewKey(m1, accepts, qs[1..]);
      AfterExtends(m1, accepts, qs[1..]);
      var m' := After(m, accepts, qs);
      assert m' == After(m1, accepts, qs[1..]);
      var rest := Built(m1, accepts, qs[1..]);
      assert rest == multiset(m'.Keys - m1.Keys);
      if Constructs(m, accepts, q) {
        var k := q.CacheKey();
        assert Built(m, accepts, qs) == multiset{k} + rest;
        assert m1.Keys == m.Keys + {k} && k !in m.Keys;
        NewKeysSplit(m.Keys, m1.Keys, m'.Keys, k);
      } else {
        assert Built(m, accepts, qs) == multiset{} + rest;
        assert m1 == m;
      }
    }
  }

  /** The keys a run adds after a first call that added `k`. */
  lemma NewKeysSplit<T>(before: set<T>, first: set<T>, last: set<T>, k: T)
    requires first == before + {k} && k !in before && first <= last
    ensures multiset(last - before) == multiset{k} + multiset(last - first)
  {
    assert last - before == {k} + (last - first);
    MultisetOfDisjointUnion({k}, last - first);
    assert multiset({k}) == multiset{k};
  }

  lemma MultisetOfDisjointUnion<T>(a: set<T>, b: set<T>)
    requires a !! b
    ensures multiset(a + b) == multiset(a) + multiset(b)
  {
    forall x ensures multiset(a + b)[x] == (multiset(a) + multiset(b))[x] {
    }
  }

  lemma KeysOfCons(qs: seq<Request>)
    requires qs != []
    ensures KeysOf(qs) == {qs[0].CacheKey()} + KeysOf(qs[1..])
  {
    forall k | k in KeysOf(qs) ensures k in {qs[0].CacheKey()} + KeysOf(qs[1..]) {
      var i :| 0 <= i < |qs| && qs[i].CacheKey() == k;
      if i > 0 {
        assert qs[1..][i - 1] == qs[i];
      }
    }
    forall k | k in KeysOf(qs[1..]) ensures k in KeysOf(qs) {
      var i :| 0 <= i < |qs[1..]| && qs[1..][i].CacheKey() == k;
      assert qs[i + 1] == qs[1..][i];
    }
  }

  /** Over any sequence of calls, at most one NTT is constructed per distinct `(N, p)`,
      none for a key already cached, so the number of constructions is at most the
      number of distinct keys asked for. */
  lemma ServeConstructionBound(m: map<Key, Ntt>, accepts: Accepts, qs: seq<Request>, k: Key)
    ensures Built(m, accepts, qs)[k] <= 1
    ensures k in m ==> Built(m, accepts, qs)[k] == 0
    ensures |Built(m, accepts, qs)| <= |KeysOf(qs)|
  {
    AfterExtends(m, accepts, qs);
    BuiltOncePerNewKey(m, accepts, qs);
    SubsetCardinality(After(m, accepts, qs).Keys - m.Keys, KeysOf(qs));
  }

  lemma {:induction false} SubsetCardinality<T>(a: set<T>, b: set<T>)
    requires a <= b
    ensures |a| <= |b|
    decreases |a|
  {
    if a != {} {
      var x :| x in a;
      SubsetCardinality(a - {x}, b - {x});
    }
  }

  /** The first root wins: once `(N, p)` is resolved, a later call with another root
      returns the very NTT the first call returned (built from the first root on a
      miss) and changes nothing. */
  lemma FirstRootWins(m: map<Key, Ntt>, accepts: Accepts, n: U64, p: U64, root1: U64, root2: U64)
    requires Resolve(m, accepts, Request(n, p, root1)).1.Ok?
    ensures var (m1, r1) := Resolve(m, accepts, Request(n, p, root1));
            && Resolve(m1, accepts, Request(n, p, root2)) == (m1, r1)
            && ((n, p) !in m ==> r1.value.root == root1)
  {
  }

  /** Keys that differ in `N` or in `p` get separate entries, each built for its own key. */
  lemma DistinctKeysDistinctEntries(m: map<Key, Ntt>, accepts: Accepts, q1: Request, q2: Request)
    requires WellKeyed(m)
    requires q1.CacheKey() != q2.CacheKey()
    ensures var (m1, r1) := Resolve(m, accepts, q1);
            var (m2, r2) := Resolve(m1, accepts, q2);
            r1.Ok? && r2.Ok? ==> r1.value != r2.value && m2[q1.CacheKey()] == r1.value
  {
  }

  /** `intel::hexl::NTT::ComputeForward` with the operand as both input and output.
      The transform belongs to the HEXL library: the model only records that the
      operand is overwritten in place, with contents it does not describe. */
  method HexlComputeForward(ntt: Ntt, operand: array<U64>, inputModFactor: U64, outputModFactor: U64)
    modifies operand
  {
  }

  /** `intel::hexl::NTT::ComputeInverse`, in place, with the same abstraction. */
  method HexlComputeInverse(ntt: Ntt, operand: array<U64>, inputModFactor: U64, outputModFactor: U64)
    modifies operand
  {
  }

  /** The cache `ntt_cache_` of one translation unit. `constructions` counts, per key,
      the successful NTT constructions so far; a constructor call that throws is not
      counted (it is repeated by every call that misses with the same arguments). */
  class Cache {
    var entries: map<Key, Ntt>
    ghost var constructions: multiset<Key>
    const accepts: Accepts

    /** Every entry was built for its key, and every key in the cache had exactly one
        NTT successfully constructed for it: constructions happen only for absent keys, and every
        construction is inserted. */
    ghost predicate Valid()
      reads this
    {
      WellKeyed(entries) && constructions == multiset(entries.Keys)
    }

    /** The cache starts out empty. */
    constructor (accepts: Accepts)
      ensures Valid()
      ensures entries == map[] && constructions == multiset{} && this.accepts == accepts
    {
      entries := map[];
      constructions := multiset{};
      this.accepts := accepts;
    }

    /** The read phase of `get_ntt`: find `(N, p)` without changing anything. */
    method Find(n: U64, p: U64) returns (hit: Option<Ntt>)
      ensures hit.Some? <==> (n, p) in entries
      ensures hit.Some? ==> hit.value == entries[(n, p)]
    {
      var key := (n, p);
      if key in entries {
        hit := Some(entries[key]);
      } else {
        hit := None;
      }
    }

    /** The write phase of `get_ntt`: check for `(N, p)` again, and only if it is still
        absent construct an NTT from `(N, p, root)` and insert it. It is correct from any
        valid state, whatever other callers inserted since the read phase. */
    method FindOrBuild(n: U64, p: U64, root: U64) returns (r: Result<Ntt>)
      requires Valid()
      modifies this
      ensures Valid()
      ensures (entries, r) == Resolve(old(entries), accepts, Request(n, p, root))
      ensures constructions == old(constructions)
        + if Constructs(old(entries), accepts, Request(n, p, root)) then multiset{(n, p)} else multiset{}
    {
      var key := (n, p);
      if key in entries {
        r := Ok(entries[key]);
      } else if accepts(Request(n, p, root)) {
        var t := Ntt(n, p, root);
        entries := entries[key := t];
        constructions := constructions + multiset{key};
        r := Ok(t);
      } else {
        r := Rejected;
      }
    }

    /** `get_ntt(N, p, root)`: a hit returns the stored NTT and leaves the cache as it
        was; a miss inserts an NTT built from `(N, p, root)` and returns it. Either way
        the result equals the cache's entry for `(N, p)` afterwards, every earlier entry
        keeps its value, and the key set grows by `(N, p)` at most. */
    method GetNtt(n: U64, p: U64, root: U64) returns (r: Result<Ntt>)
      requires Valid()
      modifies this
      ensures Valid()
      ensures (entries, r) == Resolve(old(entries), accepts, Request(n, p, root))
      ensures constructions == old(constructions)
        + if Constructs(old(entries), accepts, Request(n, p, root)) then multiset{(n, p)} else multiset{}
      ensures r.Ok? ==> (n, p) in entries && entries[(n, p)] == r.value
      ensures forall k | k in old(entries) :: k in entries && entries[k] == old(entries)[k]
      ensures entries.Keys == old(entries).Keys + if r.Ok? then {(n, p)} else {}
    {
      var hit := Find(n, p);
      if hit.Some? {
        return Ok(hit.value);
      }
      r := FindOrBuild(n, p, root);
    }

    /** The calls `others`, each a complete `get_ntt` by another caller, served in turn
        (the writer lock admits one at a time). */
    method ServeOthers(others: seq<Request>)
      requires Valid()
      modifies this
      ensures Valid()
      ensures entries == After(old(entries), accepts, others)
      ensures constructions == old(constructions) + Built(old(entries), accepts, others)
    {
      ghost var m0, c0 := entries, constructions;
      var i := 0;
      while i < |others|
        invariant 0 <= i <= |others|
        invariant Valid()
        invariant entries == After(m0, accepts, others[..i])
        invariant constructions == c0 + Built(m0, accepts, others[..i])
      {
        var q := others[i];
        ghost var e, c := entries, constructions;
        var _ := GetNtt(q.degree, q.modulus, q.root);
        ServeStep(m0, accepts, others, i, c0, e, c, entries, constructions);
        i := i + 1;
      }
      assert others[..i] == others;
    }

    /** `get_ntt(N, p, root)` when, between its read phase and its write phase, the
        callers `others` each complete a `get_ntt` of their own. If one of them inserted
        `(N, p)`, the re-check finds that entry and returns it: no second NTT is built for
        `(N, p)`, and the result is the entry the cache holds. */
    method GetNttContended(n: U64, p: U64, root: U64, others: seq<Request>) returns (r: Result<Ntt>)
      requires Valid()
      modifies this
      ensures Valid()
      ensures (n, p) in old(entries) ==> entries == old(entries) && r == Ok(old(entries)[(n, p)])
      ensures (n, p) !in old(entries) ==>
        && (entries, r) == Resolve(After(old(entries), accepts, others), accepts, Request(n, p, root))
        && constructions == old(constructions) + Built(old(entries), accepts, others + [Request(n, p, root)])
      ensures var between := After(old(entries), accepts, others);
              (n, p) !in old(entries) && (n, p) in between ==>
                && entries == between && r == Ok(between[(n, p)])
                && constructions == old(constructions) + Built(old(entries), accepts, others)
      ensures r.Ok? ==> (n, p) in entries && entries[(n, p)] == r.value
      ensures constructions[(n, p)] <= 1
    {
      var hit := Find(n, p);
      if hit.Some? {
        return Ok(hit.value);
      }
      ServeOthers(others);
      BuiltSnoc(old(entries), accepts, others, Request(n, p, root));
      r := FindOrBuild(n, p, root);
    }

    /** `compute_forward_ntt`: resolves the NTT exactly as `GetNtt` does, then transforms
        `operand` in place with it. When the NTT constructor throws, the operand is left
        untouched and the cache unchanged. */
    method ComputeForwardNtt(operand: array<U64>, n: U64, p: U64, root: U64, inputModFactor: U64, outputModFactor: U64)
      returns (ok: bool)
      requires Valid()
      modifies this, operand
      ensures Valid()
      ensures var (m, r) := Resolve(old(entries), accepts, Request(n, p, root));
              entries == m && ok == r.Ok?
      ensures constructions == old(constructions)
        + if Constructs(old(entries), accepts, Request(n, p, root)) then multiset{(n, p)} else multiset{}
      ensures !ok ==> operand[..] == old(operand[..])
    {
      var r := GetNtt(n, p, root);
      ok := r.Ok?;
      if ok {
        HexlComputeForward(r.value, operand, inputModFactor, outputModFactor);
      }
    }

    /** `compute_inverse_ntt`: the same cache effect as `compute_forward_ntt`, followed by
        the inverse transform in place. */
    method ComputeInverseNtt(operand: array<U64>, n: U64, p: U64, root: U64, inputModFactor: U64, outputModFactor: U64)
      returns (ok: bool)
      requires Valid()
      modifies this, operand
      ensures Valid()
      ensures var (m, r) := Resolve(old(entries), accepts, Request(n, p, root));
              entries == m && ok == r.Ok?
      ensures constructions == old(constructions)
        + if Constructs(old(entries), accepts, Request(n, p, root)) then multiset{(n, p)} else multiset{}
      ensures !ok ==> operand[..] == old(operand[..])
    {
      var r := GetNtt(n, p, root);
      ok := r.Ok?;
      if ok {
        HexlComputeInverse(r.value, operand, inputModFactor, outputModFactor);
      }
    }
  }
}
