# PrimeBagCluster in Dafny

PrimeBagCluster stores a bag (multiset) of values as one big number. A shared prime
table gives every distinct value its own prime. A bag keeps the product of the primes
of its elements (its *hash*) and the number of its elements (its *length*). Adding a
value multiplies the hash by the value's prime. Removing a value divides it out.
Containment and counting are divisibility tests, and listing the bag factors the hash
against the table's primes in ascending order.

The table draws its primes from a segmented Sieve of Eratosthenes. The sieve keeps
the primes found so far, the highest number already classified, and a limit that
sizes the next segment. The table keeps a forward map from values to primes and a
reverse map back. It also keeps a pool of the primes of removed values, which it hands
out again, largest first, before drawing a new prime.

The model has four modules over their own files, and one module of client runs:

- `NumberTheory` (`number_theory.dfy`): divisibility, primality and products of
  multisets of primes. `ProductDivides` is unique factorisation in the form the bag
  needs. One product of primes divides another exactly when its multiset is contained
  in the other's.
- `Eratosthenes` (`eratosthenes.dfy`): the sieve as a class over `seq` and `array`
  state. `PrimesUpTo(n)` is the list a sieve must hold once every number up to n is
  classified, and `NthPrime(i)` is the i-th prime. The sieve's invariant is
  `primes == PrimesUpTo(highestTestedNum)`, which every operation keeps.
- `PrimeTables` (`prime_table.dfy`): the table as a class with `map` and `multiset`
  fields over a sieve it owns. Its invariant `Accounted` says three things:
  - the two maps are exact inverses;
  - the assigned primes together with the pool are exactly the first `issued` primes
    of the sieve's list, each once;
  - so every prime handed out is a prime, and no two values share one.
- `PrimeBags` (`prime_bag.dfy`): the bag as a class with `hash` and `length` fields.
  A ghost multiset `factors` holds its primes, under the invariant
  `Encodes(hash, length, factors)`. The iterator is a class whose `Cursor` (prime
  index, working copy of the bag, end flag) moves by divisibility tests. It is proved
  to walk the bag's elements in the order `Order(primes, factors)` in which `AsVector`
  lists them.
- `Scenarios` (`scenarios.dfy`): small client runs that use the table, the bag and the
  iterator. Each run states the result it must give: a fresh table hands out 2, 3 and 5,
  and a bag holding a, a, b has hash 12.

Arbitrary-precision `cpp_int` hashes and `uint`/`size_t` counters are unbounded `nat`.

## Model

| member | source | states |
|---|---|---|
| Eratosthenes.SieveOfEratosthenes.constructor | PrimeBagCluster/SieveOfEratosthenes.cpp:6-12 | without a seed nothing is found yet, 0 and 1 count as classified (highestTestedNum 1, sieveLimit 1), and the invariant holds |
| Eratosthenes.SieveOfEratosthenes.FromSeed | PrimeBagCluster/SieveOfEratosthenes.cpp:14-32 | a seed that is exactly the primes up to its last element is copied; highestTestedNum and sieveLimit become that last element |
| Eratosthenes.SieveOfEratosthenes.GetCalculatedPrimes | PrimeBagCluster/SieveOfEratosthenes.cpp:35-38 | the list is strictly ascending, holds exactly the primes up to highestTestedNum, and its i-th entry is the i-th prime |
| Eratosthenes.SieveOfEratosthenes.GetNumCalculatedPrimes | PrimeBagCluster/SieveOfEratosthenes.cpp:40-43 | the number of primes found so far |
| Eratosthenes.SieveOfEratosthenes.GetPrimeNumber | PrimeBagCluster/SieveOfEratosthenes.cpp:45-50 | returns the index-th prime (from 0); the list only grows; nothing changes when that prime is already known |
| Eratosthenes.SieveOfEratosthenes.Sieve | PrimeBagCluster/SieveOfEratosthenes.cpp:52-112 | terminates with at least numPrimes primes, keeping the list exactly the primes up to highestTestedNum and only appending; no change when enough are known |
| Eratosthenes.SieveOfEratosthenes.SieveSegment | PrimeBagCluster/SieveOfEratosthenes.cpp:62-110 | one segment: the limit is doubled until it exceeds min, max is the smaller of the limit and min plus its square root, the new primes lie in (old highestTestedNum, max], and the invariant holds at max |
| Eratosthenes.SieveOfEratosthenes.MarkComposites | PrimeBagCluster/SieveOfEratosthenes.cpp:82-91 | after striking with every known prime, bit i is set exactly when no known prime strikes out min + i |
| Eratosthenes.SieveOfEratosthenes.CollectPrimes | PrimeBagCluster/SieveOfEratosthenes.cpp:93-105 | the scan appends exactly the primes of [min, max], in order, striking out each one's multiples as it goes |
| Eratosthenes.CountMultiplesInBitField | PrimeBagCluster/SieveOfEratosthenes.h:12-30 | clears exactly the bits of the multiples of prime that are at least prime squared and lie in [min, max]; every other bit keeps its value |
| Eratosthenes.GrownLimit | PrimeBagCluster/SieveOfEratosthenes.cpp:67-70 | the doubled limit exceeds the segment's lower bound and is no smaller than before |
| Eratosthenes.FloorSqrt | PrimeBagCluster/SieveOfEratosthenes.cpp:75 | the integer square root: r * r <= n < (r + 1) * (r + 1) |
| Eratosthenes.SquareRoot | PrimeBagCluster/SieveOfEratosthenes.cpp:75 | the loop that computes the segment's root returns that integer square root, FloorSqrt(n) |
| Eratosthenes.FloorSqrtIs | PrimeBagCluster/SieveOfEratosthenes.cpp:75 | that root is unique: any r with r * r <= n < (r + 1) * (r + 1) is FloorSqrt(n) |
| Eratosthenes.SegmentMax | PrimeBagCluster/SieveOfEratosthenes.cpp:75 | the segment's upper bound lies above min and within the limit, so a segment is never empty |
| Eratosthenes.SegmentTest | PrimeBagCluster/SieveOfEratosthenes.cpp:85-105 | the sieve's test is exact in both directions: n is struck out by a smaller prime exactly when n is not prime |
| Eratosthenes.FreshSieveSegments | PrimeBagCluster/SieveOfEratosthenes.cpp:62-75 | a sieve without a seed sieves [2, 4] and then [5, 7], finding 2, 3 and then 5, 7 |
| Eratosthenes.FirstPrimes | PrimeBagCluster/SieveOfEratosthenes.cpp:52-112 | the first primes listed are 2, 3, 5 and 7 |
| Eratosthenes.PrimesUpToMembers | PrimeBagCluster/SieveOfEratosthenes.h:97-100 | the list for n holds exactly the primes up to n |
| Eratosthenes.PrimesUpToAscending | PrimeBagCluster/SieveOfEratosthenes.h:97-100 | the list holds the primes in order, strictly ascending |
| Eratosthenes.PrimesUpToPrefix | PrimeBagCluster/SieveOfEratosthenes.cpp:103 | classifying more numbers only appends to the list |
| Eratosthenes.NthPrimeAt | PrimeBagCluster/SieveOfEratosthenes.cpp:45-50 | whatever a sieve has classified, entry i of its list is the i-th prime |
| Eratosthenes.NthPrimeIncreasing | PrimeBagCluster/SieveOfEratosthenes.h:51-57 | a larger index gives a larger prime |
| PrimeTables.PrimeTable.constructor | PrimeBagCluster/PrimeTable.h:31-34 | an empty table over a fresh sieve |
| PrimeTables.PrimeTable.FromSeed | PrimeBagCluster/PrimeTable.h:31-34 | an empty table over a sieve seeded with a list of primes |
| PrimeTables.PrimeTable.Add | PrimeBagCluster/PrimeTable.h:40-98 | a known value keeps its prime and nothing changes. A new value gets the largest pooled prime, taken out of the pool with the sieve untouched, or, with the pool empty, the prime at index size of the sieve's list. Both maps gain the pair, and the bookkeeping holds |
| PrimeTables.PrimeTable.TakeHole | PrimeBagCluster/PrimeTable.h:55-59 | the largest prime of the pool goes to the new value and leaves the pool |
| PrimeTables.PrimeTable.DrawFresh | PrimeBagCluster/PrimeTable.h:60-87 | with the pool empty the new value gets the i-th prime, i being the number of values held |
| PrimeTables.PrimeTable.GetPrime | PrimeBagCluster/PrimeTable.h:103-115 | 0 exactly when the value has no prime; otherwise a prime that the reverse map sends back to the value |
| PrimeTables.PrimeTable.Remove | PrimeBagCluster/PrimeTable.h:124-141 | a held value leaves both maps and its prime is pooled and returned; otherwise 0 is returned and nothing changes |
| PrimeTables.PrimeTable.Clear | PrimeBagCluster/PrimeTable.h:146-163 | clear() as intended: both maps and the pool are emptied, so the bookkeeping starts over |
| PrimeTables.PrimeTable.ClearKeepingPool | PrimeBagCluster/PrimeTable.h:156-162 | clear() as written: both maps are emptied but the pool and the issued count stay as they were |
| PrimeTables.PrimeTable.ContainsPrime | PrimeBagCluster/PrimeTable.h:177-182 | true exactly when some value holds the prime, and then it is a prime |
| PrimeTables.PrimeTable.GetValue | PrimeBagCluster/PrimeTable.h:188-191 | the value holding the prime; out_of_range exactly when no value holds it |
| PrimeTables.PrimeTable.GetPrimeNumbers | PrimeBagCluster/PrimeTable.h:196-199 | the sieve's list: ascending, the i-th prime at index i, and holding every assigned or pooled prime |
| PrimeTables.PrimeTable.IssuedArePrimes | PrimeBagCluster/PrimeTable.h:37-38 | every assigned or pooled prime is a prime of the sieve's list, and no prime is both assigned and pooled |
| PrimeTables.PrimeTable.Injective | PrimeBagCluster/PrimeTable.h:37-38 | distinct values hold distinct primes |
| PrimeTables.HoleAssignment | PrimeBagCluster/PrimeTable.h:55-59 | handing out a pooled prime that no value holds keeps the bookkeeping |
| PrimeTables.FreshAssignment | PrimeBagCluster/PrimeTable.h:74-87 | with the pool empty, the prime at index size was never handed out, is prime, and handing it out keeps the bookkeeping with one more issued |
| PrimeTables.ValueReturned | PrimeBagCluster/PrimeTable.h:130-135 | taking a value out and pooling its prime keeps the bookkeeping |
| PrimeTables.AccountedGrows | PrimeBagCluster/PrimeTable.h:74 | the sieve finding more primes leaves the bookkeeping intact |
| PrimeTables.MultisetHasMax | PrimeBagCluster/PrimeTable.h:57 | a non-empty pool has a largest element, which the priority queue's top() returns |
| PrimeBags.ContainsHashIsMultiple | PrimeBagCluster/PrimeBag.h:15-18 | containsHash(h, o) holds exactly when h is a whole multiple of o |
| PrimeBags.ContainsHashOfProducts | PrimeBagCluster/PrimeBag.h:15-18 | on products of primes, containsHash is containment of the multisets, and the quotient is the product of the difference |
| NumberTheory.ProductDivides | PrimeBagCluster/PrimeBag.h:67-84 | one product of primes divides another exactly when its multiset is contained in the other's |
| NumberTheory.ProductInjective | PrimeBagCluster/PrimeBag.h:47-53 | two bags over one table with equal hashes hold the same primes |
| NumberTheory.PrimeDividesProduct | PrimeBagCluster/PrimeBag.h:139-145 | a prime divides a product of primes exactly when it is one of them |
| NumberTheory.PowerDividesProduct | PrimeBagCluster/PrimeBag.h:152-168 | p to the k divides a product of primes exactly when k is at most the number of copies of p |
| PrimeBags.PrimeBag.constructor | PrimeBagCluster/PrimeBag.h:33-35 | an empty bag (hash 1, length 0) over the given table |
| PrimeBags.PrimeBag.Add | PrimeBagCluster/PrimeBag.h:47-53 | the bag gains one copy of the value's prime; hash and length stay an encoding of the elements. A known value leaves the table untouched. A new value is added to both maps of the table, with every other assignment kept, and gets the largest pooled prime (taken out of the pool, sieve untouched) or, with the pool empty, the prime at index size of the sieve's list |
| PrimeBags.PrimeBag.AddBag | PrimeBagCluster/PrimeBag.h:55-65 | over the same table the bag gains every element of the other bag, which may be the bag itself; otherwise nothing changes |
| PrimeBags.PrimeBag.RemoveBag | PrimeBagCluster/PrimeBag.h:67-84 | removes the other bag's elements and returns true exactly when both bags share the table and the other's elements are all present; otherwise nothing changes |
| PrimeBags.PrimeBag.Remove | PrimeBagCluster/PrimeBag.h:86-102 | removes one copy and returns true exactly when the value has a prime that the bag holds; otherwise nothing changes |
| PrimeBags.PrimeBag.Clear | PrimeBagCluster/PrimeBag.h:104-108 | the bag becomes empty, and the table keeps its assignments |
| PrimeBags.PrimeBag.Contains | PrimeBagCluster/PrimeBag.h:139-145 | true exactly when the value has a prime and the bag holds it |
| PrimeBags.PrimeBag.Size | PrimeBagCluster/PrimeBag.h:147-150 | the number of elements with multiplicity |
| PrimeBags.PrimeBag.Count | PrimeBagCluster/PrimeBag.h:152-168 | 0 for a value without a prime; otherwise the number of copies, which is the exact power of the prime in the hash |
| PrimeBags.Multiplicity | PrimeBagCluster/PrimeBag.h:158-164 | the division loop counts the copies of the prime, and p^result divides the hash while p^(result+1) does not |
| PrimeBags.PrimeBag.AsVector | PrimeBagCluster/PrimeBag.h:170-199 | fails (out_of_range) exactly when a prime it visits before every element is listed belongs to no value. Otherwise it lists the values in ascending order of their primes, each as often as the bag holds it, so its length is the bag's length |
| PrimeBags.ListValues | PrimeBagCluster/PrimeBag.h:172-198 | the listing loop, with the same outcome as AsVector, for any ascending list of primes and reverse map |
| PrimeBags.MultiplyIn | PrimeBagCluster/PrimeBag.h:51-52 | multiplying a prime in adds one copy of it to the encoded multiset |
| PrimeBags.Combine | PrimeBagCluster/PrimeBag.h:59-63 | multiplying hashes and adding lengths encodes the union of the multisets |
| PrimeBags.Subtract | PrimeBagCluster/PrimeBag.h:71-79 | the length check and the divisibility test succeed exactly when the other multiset is contained, and then the quotient encodes the difference |
| PrimeBags.DivideOutPrime | PrimeBagCluster/PrimeBag.h:92-97 | the division succeeds exactly when the prime is an element, and then one copy is gone |
| PrimeBags.OrderCount | PrimeBagCluster/PrimeBag.h:178-190 | the listing holds each element of the bag whose prime is on the list as often as the bag does, and nothing else |
| PrimeBags.OrderSorted | PrimeBagCluster/PrimeBag.h:178-190 | the listing is in ascending order of primes |
| PrimeBags.ArrangementIsOrder | PrimeBagCluster/PrimeBag.h:170-199 | any ascending arrangement of the bag's primes is the listing AsVector produces |
| PrimeBags.SortedUnique | PrimeBagCluster/PrimeBag.h:170-199 | a multiset has only one ascending arrangement |
| PrimeBags.SeekUp | PrimeBagCluster/PrimeBag.h:331-342 | getNextPrimeFactor stops at the prime of the next element of the copy |
| PrimeBags.SeekDown | PrimeBagCluster/PrimeBag.h:344-355 | getPreviousPrimeFactor stops at the prime of the previous element |
| PrimeBags.TakeOffFront | PrimeBagCluster/PrimeBag.h:270 | dividing the copy's hash by the current prime leaves the hash of the later elements |
| PrimeBags.MultiplyBack | PrimeBagCluster/PrimeBag.h:294 | multiplying the current prime back restores the hash one element earlier |
| PrimeBags.Start | PrimeBagCluster/PrimeBag.h:214-232 | the iterator starts at the first element, or at the end when asked or when the bag is empty |
| PrimeBags.Advance | PrimeBagCluster/PrimeBag.h:263-280 | one step of operator++ moves forward one position, or nothing at the end |
| PrimeBags.StepBackward | PrimeBagCluster/PrimeBag.h:288-298 | the body of operator-- moves back exactly one position |
| PrimeBags.PrimeBagIterator.constructor | PrimeBagCluster/PrimeBag.h:214-232 | begin() is at position 0 and end() at the bag's length; an empty bag starts at the end |
| PrimeBags.PrimeBagIterator.ElemsInOrder | PrimeBagCluster/PrimeBag.h:170-199 | the iterator visits the elements in the order AsVector lists them |
| PrimeBags.PrimeBagIterator.Current | PrimeBagCluster/PrimeBag.h:234-244 | the value whose prime is the current element; out_of_range at the end or when that prime belongs to no value |
| PrimeBags.PrimeBagIterator.Equals | PrimeBagCluster/PrimeBag.h:246-256 | on one bag, two iterators are equal exactly when they stand at the same position |
| PrimeBags.PrimeBagIterator.NotEquals | PrimeBagCluster/PrimeBag.h:258-261 | on one bag, two iterators differ exactly when their positions do |
| PrimeBags.PrimeBagIterator.Less | PrimeBagCluster/PrimeBag.h:304-307 | away from the end, the order of positions; the last element is not before end() |
| PrimeBags.PrimeBagIterator.Greater | PrimeBagCluster/PrimeBag.h:309-312 | away from the end, the reverse order of positions; end() is not after the last element |
| PrimeBags.PrimeBagIterator.AtLeast | PrimeBagCluster/PrimeBag.h:314-317 | away from the end, position at least the other's |
| PrimeBags.PrimeBagIterator.AtMost | PrimeBagCluster/PrimeBag.h:319-322 | away from the end, position at most the other's |
| PrimeBags.PrimeBagIterator.Increment | PrimeBagCluster/PrimeBag.h:263-280 | moves one position forward, from the last element to the end, and does nothing at the end |
| PrimeBags.PrimeBagIterator.Decrement | PrimeBagCluster/PrimeBag.h:282-302 | operator-- as written: moves back one position except at the first element and at the end of a one-element bag |
| PrimeBags.PrimeBagIterator.DecrementFixed | PrimeBagCluster/PrimeBag.h:282-302 | operator-- with the guard corrected: moves back one position from anywhere but the first element |
| Scenarios.FreshTablePrimes | PrimeBagCluster/PrimeTable.h:65-80 | a fresh table gives three new values 2, 3 and 5 |
| Scenarios.RepeatedAdd | PrimeBagCluster/PrimeTable.h:89-95 | adding a held value again returns its prime, 2 |
| Scenarios.RemovedPrimeIsReused | PrimeBagCluster/PrimeTable.h:55-59 | a removed value's prime 3 is the next new value's prime |
| Scenarios.LargestHoleFirst | PrimeBagCluster/PrimeTable.h:55-59 | with 3 and 5 pooled, new values get 5 and then 3 |
| Scenarios.BagOfThree | PrimeBagCluster/PrimeBag.h:47-53 | a bag holding a, a, b over a fresh table has hash 12 and size 3, holds a twice and holds b |
| Scenarios.AddThenRemove | PrimeBagCluster/PrimeBag.h:86-102 | adding a prime and removing it again gives back the same hash and length |
| Scenarios.EmptyBagIterators | PrimeBagCluster/PrimeBag.h:218-227 | begin() equals end() on an empty bag |
| Scenarios.EndDecrementAsWritten | PrimeBagCluster/PrimeBag.h:286 | on a one-element bag, --end() as written still equals end() |
| Scenarios.EndDecrementCorrected | PrimeBagCluster/PrimeBag.h:286 | with the guard corrected, --end() on a one-element bag differs from end() |
| Scenarios.OneElementEndDecrement | PrimeBagCluster/PrimeBag.h:282-302 | both of the above on one bag |
| Scenarios.KeptPool | PrimeBagCluster/PrimeTable.h:162 | after 2 and 3 were handed out and 3 pooled, emptying the maps while keeping the pool breaks the bookkeeping: 3 is pooled and also next at index 1 |
| Scenarios.ClearKeepsPool | PrimeBagCluster/PrimeTable.h:146-163 | clear() as written leaves 3 pooled with both maps empty, 3 is also the sieve's next prime at index 1, and the table's invariant fails |
| Scenarios.SharedPrimeAfterClear | PrimeBagCluster/PrimeTable.h:50-87 | from that state, add(c) takes the pooled 3 and add(d) then draws index 1, which is 3 again: both values map to 3 and the reverse map sends 3 to d only |
| Scenarios.AddBagThenRemoveBag | PrimeBagCluster/PrimeBag.h:55-84 | add(bag) followed by remove(bag), over the same table, succeeds and restores the bag's elements, hash and length |
| Scenarios.RemoveSubBag | PrimeBagCluster/PrimeBag.h:67-84 | with bag1 = {a, a, b} and bag2 = {a}, bag1.remove(bag2) succeeds leaving a and b once each, and bag2.remove(bag1) then fails and leaves bag2 = {a} |

## Left out

- The prefetch future of add() (PrimeTable.h:65-80) is modelled as a synchronous draw
  at index size of the sieve's list. The future always fetches the prime at the index
  the next fresh draw needs. Between two fresh draws the pool starts and ends empty, so
  every removal in between was matched by a pooled add, and size grew by exactly one.
  clear() joins the future, after which add() calls getPrimeNumber directly. The worker
  thread, and its concurrent use of the sieve, are not modelled.
- PrimeTables.PrimeTable.Clear and PrimeTables.PrimeTable.ClearKeepingPool: clear()
  calls get() on the future first (PrimeTable.h:151). get() on a future without shared
  state is undefined behaviour. That happens when no fresh prime was ever drawn, and on
  a second clear() with no fresh draw since the first, because get() releases the state.
  The model has no such failure.
- 32-bit wrap-around of `uint` and `size_t` is not modelled: primes, indices, the
  sieve's limits and the bag's length are unbounded naturals. The limit doubling at
  SieveOfEratosthenes.cpp:69 and `prime * prime` therefore cannot overflow.
- Eratosthenes.FloorSqrt: `uint(sqrt(sieveLimit))` goes through floating point; the
  model takes the exact integer square root, which the double agrees with for every
  limit a 32-bit sieve reaches.
- The iterator's `primeIndex = uint(size - 1)` wraps to the largest `uint` on an empty
  prime list; the model writes -1 there.
- PrimeBags.PrimeBagIterator.Decrement: requires a non-empty bag. On an empty bag,
  `refPrimeBag.length - 1` wraps, so the guard at PrimeBag.h:286 passes. The backward
  seek at PrimeBag.h:348-351 then never stops, because `1 % (1 * p)` is never 0 for a
  prime p: `primeIndex` is decremented below 0, wraps, and the list is read out of range.
  On an empty prime list the read at PrimeBag.h:284 is already out of range.
- PrimeBags.PrimeBagIterator.DecrementFixed: requires a non-empty bag, for the same
  reason.
- PrimeBags.PrimeBagIterator.constructor: requires every prime of the bag to be on the
  sieve's list. That holds for any bag built through its table, and otherwise the
  source reads the list out of range.
- PrimeBags.PrimeBag.AsVector and PrimeBags.PrimeBagIterator.Current: the exception of
  `getValue` (std::out_of_range) is the `OutOfRange` result.
- operator&& (PrimeBag.h:110-113) has an empty body and returns nothing, so there is no
  behaviour to model.
- operator+ and operator- (PrimeBag.h:115-137) are AddBag, Add, RemoveBag and Remove,
  returning the bag itself; they are not separate members.
- getPrimeMap (PrimeTable.h:168-171) only exposes the `primeMap` field, which the model
  reads directly.
- An iterator holds a reference to its bag. The model's iterator requires the bag and the
  sieve's list to stay as they were when it was made. Changing the bag while iterating
  is not modelled.
- Eratosthenes.SieveOfEratosthenes.FromSeed and PrimeTables.PrimeTable.FromSeed:
  require a non-empty seed that is exactly the primes up to its last element. The
  source documents a seed with composites as invalid and takes `back()` of it, which
  is undefined on an empty seed. The requirement also excludes ordered all-prime seeds
  that skip a prime, such as [2, 5], which the source's description of the parameter
  ("an ordered vector of prime numbers") admits. The source accepts those, but its
  sieve then never tests the skipped numbers again, so getPrimeNumber(1) returns 5
  rather than the second prime and the sieve's invariant fails; the model does not
  cover such a sieve.
- The working copy `primeBagCopy` of the iterator is the pair (copyHash, copyLength) of
  its `Cursor`. The copy's hash, as a function of the position, is `SuffixHash`.

## Findings

| source | as written | input that shows it | evidently intended | confidence | as-written member | corrected member |
|---|---|---|---|---|---|---|
| PrimeBagCluster/PrimeBag.h:286 | operator-- moves only when the copy's length is below the bag's length less one; at end() the copy is empty, so on a one-element bag the guard 0 < 0 fails | a bag holding one value: --end() stays at end() | --end() moves to the last element, as it does on longer bags | not executed | PrimeBags.PrimeBagIterator.Decrement, Scenarios.EndDecrementAsWritten | PrimeBags.PrimeBagIterator.DecrementFixed, Scenarios.EndDecrementCorrected |
| PrimeBagCluster/PrimeTable.h:162 | the statement meant to re-initialise the pool of primes names it without changing it, so clear() keeps the pooled primes | add a (2), add b (3), remove b, clear: 3 stays pooled; then add c takes 3 from the pool and add d draws index 1, which is 3 again | clear() also empties the pool, so that every value again gets a distinct prime | not executed | PrimeTables.PrimeTable.ClearKeepingPool, Scenarios.ClearKeepsPool, Scenarios.SharedPrimeAfterClear | PrimeTables.PrimeTable.Clear |
