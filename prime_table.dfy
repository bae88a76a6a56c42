/** The prime assignment table: a two-way map between values and distinct primes, drawing
    fresh primes from a sieve and recycling the primes of removed values, largest first. */
module PrimeTables {
  import opened NumberTheory
  import opened Eratosthenes

  /** The outcome of a lookup that throws std::out_of_range when it fails. */
  datatype Result<T> = Ok(value: T) | OutOfRange

  /** A strictly ascending sequence holds each element once. */
  lemma {:induction false} AscendingOnce(s: seq<nat>)
    requires StrictlyAscending(s)
    ensures forall x :: multiset(s)[x] <= 1
  {
    if |s| > 0 {
      var init := s[..|s| - 1];
      assert s == init + [s[|s| - 1]];
      assert StrictlyAscending(init);
      AscendingOnce(init);
      assert s[|s| - 1] !in init;
    }
  }

  /** The larger of x and the largest element of m - {x} is the largest element of m. */
  lemma MaxStep(m: multiset<nat>, x: nat, y: nat)
    requires x in m && y in m - multiset{x}
    requires forall q :: q in m - multiset{x} ==> q <= y
    ensures forall q :: q in m ==> q <= (if x <= y then y else x)
  {
    forall q | q in m
      ensures q <= (if x <= y then y else x)
    {
      if q != x {
        assert q in m - multiset{x};
      }
    }
  }

  /** A non-empty multiset of naturals has a largest element. */
  lemma {:induction false} MultisetHasMax(m: multiset<nat>)
    requires |m| > 0
    ensures exists p :: p in m && forall q :: q in m ==> q <= p
    decreases |m|
  {
    var x :| x in m;
    var rest := m - multiset{x};
    if |rest| > 0 {
      MultisetHasMax(rest);
      var y :| y in rest && forall q :: q in rest ==> q <= y;
      MaxStep(m, x, y);
      var top := if x <= y then y else x;
      assert top in m;
    } else {
      assert rest == multiset{};
      assert m == multiset{x};
    }
  }

  /** Two maps that undo each other, with as many entries each. */
  ghost predicate Inverse<V>(forward: map<V, nat>, backward: map<nat, V>)
  {
    && (forall v :: v in forward ==> forward[v] in backward && backward[forward[v]] == v)
    && (forall p :: p in backward ==> backward[p] in forward && forward[backward[p]] == p)
    && |forward| == |backward|
  }

  lemma InverseInsert<V>(forward: map<V, nat>, backward: map<nat, V>, v: V, p: nat)
    requires Inverse(forward, backward) && v !in forward && p !in backward
    ensures Inverse(forward[v := p], backward[p := v])
    ensures backward[p := v].Keys == backward.Keys + {p}
  {
  }

  lemma InverseRemove<V>(forward: map<V, nat>, backward: map<nat, V>, v: V)
    requires Inverse(forward, backward) && v in forward
    ensures Inverse(forward - {v}, backward - {forward[v]})
    ensures (backward - {forward[v]}).Keys == backward.Keys - {forward[v]}
  {
    var p := forward[v];
    assert (forward - {v}).Keys == forward.Keys - {v};
    assert (backward - {p}).Keys == backward.Keys - {p};
  }

  /** A set seen as a multiset has as many elements as the set. */
  lemma {:induction false} SetAsMultisetSize(s: set<nat>)
    ensures |multiset(s)| == |s|
    decreases |s|
  {
    if s != {} {
      var x :| x in s;
      SetAsMultisetSize(s - {x});
      assert multiset(s) == multiset(s - {x}) + multiset{x};
    }
  }

  /** Moving a pooled prime into the assigned keys keeps the accounting. */
  lemma HoleTaken(keys: set<nat>, holes: multiset<nat>, listed: seq<nat>, p: nat)
    requires multiset(keys) + holes == multiset(listed) && p in holes && p !in keys
    ensures multiset(keys + {p}) + (holes - multiset{p}) == multiset(listed)
  {
    assert multiset(keys + {p}) == multiset(keys) + multiset{p};
  }

  /** Assigning a newly drawn prime extends the accounting by that prime. */
  lemma FreshDrawn(keys: set<nat>, listed: seq<nat>, p: nat)
    requires multiset(keys) == multiset(listed) && p !in keys
    ensures multiset(keys + {p}) == multiset(listed + [p])
  {
    assert multiset(keys + {p}) == multiset(keys) + multiset{p};
  }

  /** Moving an assigned prime into the pool keeps the accounting. */
  lemma HoleReturned(keys: set<nat>, holes: multiset<nat>, listed: seq<nat>, p: nat)
    requires multiset(keys) + holes == multiset(listed) && p in keys
    ensures multiset(keys - {p}) + (holes + multiset{p}) == multiset(listed)
  {
    assert multiset(keys - {p}) + multiset{p} == multiset(keys);
  }

  /** With the pool empty, the assigned primes are the listed ones, one value each. */
  lemma AssignedCount<V>(forward: map<V, nat>, backward: map<nat, V>, listed: seq<nat>)
    requires Inverse(forward, backward) && multiset(backward.Keys) == multiset(listed)
    ensures |forward| == |listed|
  {
    SetAsMultisetSize(backward.Keys);
    assert |backward.Keys| == |backward|;
  }

  /** The bookkeeping of a table: forward and backward undo each other, and the assigned
      primes together with the pool are the first issued primes of ps. */
  ghost predicate Accounted<V>(forward: map<V, nat>, backward: map<nat, V>, holes: multiset<nat>,
                               ps: seq<nat>, issued: nat)
  {
    && Inverse(forward, backward)
    && issued <= |ps|
    && multiset(backward.Keys) + holes == multiset(ps[..issued])
  }

  /** The bookkeeping survives the sieve finding more primes. */
  lemma AccountedGrows<V>(forward: map<V, nat>, backward: map<nat, V>, holes: multiset<nat>,
                          ps: seq<nat>, longer: seq<nat>, issued: nat)
    requires Accounted(forward, backward, holes, ps, issued) && ps <= longer
    ensures Accounted(forward, backward, holes, longer, issued)
  {
    assert longer[..issued] == ps[..issued];
  }

  /** Giving v the pooled prime p keeps the bookkeeping, with p out of the pool. */
  lemma HoleAssignment<V>(forward: map<V, nat>, backward: map<nat, V>, holes: multiset<nat>,
                          ps: seq<nat>, issued: nat, v: V, p: nat)
    requires Accounted(forward, backward, holes, ps, issued)
    requires v !in forward && p in holes && p !in backward
    ensures Accounted(forward[v := p], backward[p := v], holes - multiset{p}, ps, issued)
  {
    InverseInsert(forward, backward, v, p);
    HoleTaken(backward.Keys, holes, ps[..issued], p);
  }

  /** With the pool empty, the prime at index |forward| of the sieve's list is the next one
      to hand out; giving it to a new value issues one more prime. */
  lemma FreshAssignment<V>(forward: map<V, nat>, backward: map<nat, V>, ps: seq<nat>, highest: nat,
                           issued: nat, v: V, p: nat)
    requires ps == PrimesUpTo(highest) && Accounted(forward, backward, multiset{}, ps, issued)
    requires |forward| < |ps| && p == ps[|forward|] && v !in forward
    ensures IsPrime(p) && p !in backward
    ensures Accounted(forward[v := p], backward[p := v], multiset{}, ps, issued + 1)
  {
    var listed: seq<nat> := ps[..issued];
    AssignedCount(forward, backward, listed);
    PrimesUpToMembers(highest);
    PrimesUpToAscending(highest);
    assert p in ps;
    assert p !in listed;
    assert multiset(listed)[p] == 0;
    assert p !in backward.Keys;
    assert ps[..issued + 1] == listed + [p];
    FreshDrawn(backward.Keys, listed, p);
    InverseInsert(forward, backward, v, p);
  }

  /** Taking v out and pooling its prime keeps the bookkeeping. */
  lemma ValueReturned<V>(forward: map<V, nat>, backward: map<nat, V>, holes: multiset<nat>,
                         ps: seq<nat>, issued: nat, v: V)
    requires Accounted(forward, backward, holes, ps, issued) && v in forward
    ensures Accounted(forward - {v}, backward - {forward[v]}, holes + multiset{forward[v]}, ps, issued)
  {
    InverseRemove(forward, backward, v);
    HoleReturned(backward.Keys, holes, ps[..issued], forward[v]);
  }

  class PrimeTable<V(==)> {
    /** The generator the fresh primes come from; the table owns it. */
    const sieve: SieveOfEratosthenes
    /** The prime assigned to each value. */
    var primeMap: map<V, nat>
    /** The value each assigned prime belongs to. */
    var reversePrimeMap: map<nat, V>
    /** The primes of removed values, waiting to be handed out again. */
    var primeHoles: multiset<nat>
    /** How many primes of the sieve's list have been handed out since the table was
        created or last cleared. */
    ghost var issued: nat

    /** The two maps are exact inverses, and the assigned primes together with the pool
        are exactly the first `issued` primes, each of them once. */
    ghost predicate Valid()
      reads this, sieve
    {
      && sieve.Valid()
      && Accounted(primeMap, reversePrimeMap, primeHoles, sieve.primes, issued)
    }

    /** A table over a fresh sieve. */
    constructor ()
      ensures Valid() && fresh(sieve)
      ensures primeMap == map[] && reversePrimeMap == map[] && primeHoles == multiset{}
      ensures sieve.primes == []
    {
      sieve := new SieveOfEratosthenes();
      primeMap := map[];
      reversePrimeMap := map[];
      primeHoles := multiset{};
      issued := 0;
    }

    /** A table over a sieve seeded with a list of primes. */
    constructor FromSeed(seed: seq<nat>)
      requires |seed| > 0 && seed == PrimesUpTo(seed[|seed| - 1])
      ensures Valid() && fresh(sieve)
      ensures primeMap == map[] && reversePrimeMap == map[] && primeHoles == multiset{}
      ensures sieve.primes == seed
    {
      sieve := new SieveOfEratosthenes.FromSeed(seed);
      primeMap := map[];
      reversePrimeMap := map[];
      primeHoles := multiset{};
      issued := 0;
    }

    /** Every assigned or pooled prime is a prime of the sieve's list, and no prime is both
        assigned and pooled. */
    lemma IssuedArePrimes()
      requires Valid()
      ensures forall p :: p in reversePrimeMap ==> p in sieve.primes && IsPrime(p)
      ensures forall p :: p in primeHoles ==> p in sieve.primes && IsPrime(p) && p !in reversePrimeMap
    {
      var listed := sieve.primes[..issued];
      PrimesUpToMembers(sieve.highestTestedNum);
      PrimesUpToAscending(sieve.highestTestedNum);
      forall p | p in multiset(listed)
        ensures p in sieve.primes
      {
        assert p in listed;
      }
      assert StrictlyAscending(listed);
      AscendingOnce(listed);
      forall p | p in primeHoles
        ensures p !in reversePrimeMap
      {
        assert multiset(listed)[p] == multiset(reversePrimeMap.Keys)[p] + primeHoles[p];
      }
    }

    /** Distinct values hold distinct primes. */
    lemma Injective()
      requires Valid()
      ensures forall v, w :: v in primeMap && w in primeMap && v != w ==> primeMap[v] != primeMap[w]
    {
      forall v, w | v in primeMap && w in primeMap && primeMap[v] == primeMap[w]
        ensures v == w
      {
        assert reversePrimeMap[primeMap[v]] == v;
      }
    }

    /** The prime of value, adding it when it is new: a new value takes the largest prime
        in the pool, or, when the pool is empty, the prime at index |primeMap| of the
        sieve's list. */
    method Add(value: V) returns (prime: nat)
      requires Valid()
      modifies this, sieve
      ensures Valid() && old(sieve.primes) <= sieve.primes
      ensures value in primeMap && prime == primeMap[value] && IsPrime(prime)
      ensures value in old(primeMap) ==> prime == old(primeMap[value]) && unchanged(this, sieve)
      ensures value !in old(primeMap) ==>
        && primeMap == old(primeMap)[value := prime]
        && reversePrimeMap == old(reversePrimeMap)[prime := value]
      ensures value !in old(primeMap) && old(primeHoles) != multiset{} ==>
        && prime in old(primeHoles)
        && (forall q :: q in old(primeHoles) ==> q <= prime)
        && primeHoles == old(primeHoles) - multiset{prime}
        && unchanged(sieve)
      ensures value !in old(primeMap) && old(primeHoles) == multiset{} ==>
        prime == NthPrime(old(|primeMap|)) && primeHoles == multiset{}
    {
      if value in primeMap {
        prime := primeMap[value];
        IssuedArePrimes();
        return;
      }
      if primeHoles != multiset{} {
        prime := TakeHole(value);
      } else {
        prime := DrawFresh(value);
      }
    }

    /** Assigns a new value the largest prime of the non-empty pool. */
    method TakeHole(value: V) returns (prime: nat)
      requires Valid() && value !in primeMap && primeHoles != multiset{}
      modifies this
      ensures Valid() && IsPrime(prime)
      ensures prime in old(primeHoles) && forall q :: q in old(primeHoles) ==> q <= prime
      ensures primeHoles == old(primeHoles) - multiset{prime}
      ensures primeMap == old(primeMap)[value := prime]
      ensures reversePrimeMap == old(reversePrimeMap)[prime := value]
    {
      IssuedArePrimes();
      MultisetHasMax(primeHoles);
      var top :| top in primeHoles && forall q :: q in primeHoles ==> q <= top;
      prime := top;
      HoleAssignment(primeMap, reversePrimeMap, primeHoles, sieve.primes, issued, value, prime);
      primeHoles, primeMap, reversePrimeMap := primeHoles - multiset{top}, primeMap[value := prime], reversePrimeMap[prime := value];
    }

    /** Assigns a new value, while the pool is empty, the prime at index |primeMap| of the
        sieve's list. */
    method DrawFresh(value: V) returns (prime: nat)
      requires Valid() && value !in primeMap && primeHoles == multiset{}
      modifies this, sieve
      ensures Valid() && old(sieve.primes) <= sieve.primes && IsPrime(prime)
      ensures prime == NthPrime(old(|primeMap|)) && primeHoles == multiset{}
      ensures primeMap == old(primeMap)[value := prime]
      ensures reversePrimeMap == old(reversePrimeMap)[prime := value]
    {
      ghost var before := sieve.primes;
      prime := sieve.GetPrimeNumber(|primeMap|);
      AccountedGrows(primeMap, reversePrimeMap, primeHoles, before, sieve.primes, issued);
      FreshAssignment(primeMap, reversePrimeMap, sieve.primes, sieve.highestTestedNum, issued, value, prime);
      issued, primeMap, reversePrimeMap := issued + 1, primeMap[value := prime], reversePrimeMap[prime := value];
    }

    /** The prime assigned to value, or 0 when value has none. */
    function GetPrime(value: V): (prime: nat)
      reads this, sieve
      requires Valid()
      ensures prime == 0 <==> value !in primeMap
      ensures prime != 0 ==> IsPrime(prime) && prime in reversePrimeMap && reversePrimeMap[prime] == value
    {
      IssuedArePrimes();
      if value in primeMap then primeMap[value] else 0
    }

    /** Takes value out of the table and pools its prime; returns that prime, or 0 and
        changes nothing when value has none. */
    method Remove(value: V) returns (prime: nat)
      requires Valid()
      modifies this
      ensures Valid()
      ensures value in old(primeMap) ==>
        && prime == old(primeMap[value])
        && primeHoles == old(primeHoles) + multiset{prime}
        && primeMap == old(primeMap) - {value}
        && reversePrimeMap == old(reversePrimeMap) - {prime}
      ensures value !in old(primeMap) ==> prime == 0 && unchanged(this)
    {
      if value !in primeMap {
        return 0;
      }
      prime := primeMap[value];
      ValueReturned(primeMap, reversePrimeMap, primeHoles, sieve.primes, issued, value);
      primeHoles, primeMap, reversePrimeMap := primeHoles + multiset{prime}, primeMap - {value}, reversePrimeMap - {prime};
    }

    /** Empties the table: no value keeps a prime and the pool is emptied too, so the next
        value starts again from the first prime. */
    method Clear()
      requires Valid()
      modifies this
      ensures Valid()
      ensures primeMap == map[] && reversePrimeMap == map[] && primeHoles == multiset{}
    {
      primeMap := map[];
      reversePrimeMap := map[];
      primeHoles := multiset{};
      issued := 0;
    }

    /** clear() as the source has it: the maps are emptied, but the statement meant to
        reset the pool has no effect, so the pool keeps its primes while the next fresh
        prime is again drawn at index |primeMap|. */
    method ClearKeepingPool()
      requires Valid()
      modifies this
      ensures sieve.Valid() && primeMap == map[] && reversePrimeMap == map[]
      ensures primeHoles == old(primeHoles) && issued == old(issued)
    {
      primeMap := map[];
      reversePrimeMap := map[];
    }

    /** Whether some value holds prime. */
    function ContainsPrime(prime: nat): (r: bool)
      reads this, sieve
      requires Valid()
      ensures r <==> exists v :: v in primeMap && primeMap[v] == prime
      ensures r ==> IsPrime(prime)
    {
      IssuedArePrimes();
      assert prime in reversePrimeMap ==> primeMap[reversePrimeMap[prime]] == prime;
      prime in reversePrimeMap
    }

    /** The value holding prime; fails when no value holds it. */
    function GetValue(prime: nat): (r: Result<V>)
      reads this, sieve
      requires Valid()
      ensures r.Ok? <==> ContainsPrime(prime)
      ensures r.Ok? ==> r.value in primeMap && primeMap[r.value] == prime
    {
      if prime in reversePrimeMap then Ok(reversePrimeMap[prime]) else OutOfRange
    }

    /** The primes the sieve has found: ascending, the i-th being the i-th prime, and
        including every prime the table has handed out. */
    function GetPrimeNumbers(): (r: seq<nat>)
      reads this, sieve
      requires Valid()
      ensures StrictlyAscending(r) && forall i :: 0 <= i < |r| ==> r[i] == NthPrime(i)
      ensures forall p :: p in r ==> IsPrime(p)
      ensures forall p :: p in reversePrimeMap || p in primeHoles ==> p in r
    {
      IssuedArePrimes();
      sieve.GetCalculatedPrimes()
    }
  }
}
