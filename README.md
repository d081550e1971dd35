# Gaussian integer sieves and moats, modelled in Dafny

This project models the core of a C++ library that enumerates Gaussian primes
(primes of Z[i]) with sieves of Eratosthenes, and explores "Gaussian moats":
the connected components of Gaussian primes under steps of bounded length.

Everything is modelled on unbounded integers and proved with the Dafny verifier.

The modules follow the source files:

- `GaussianInt` (include/BaseSieve.hpp): the `gint` value with its norm, flip,
  sum, product, and the order the library sorts by. This order puts the smaller
  norm first and breaks ties by the larger real part. The module also holds the
  folds that take any multiple into the first quadrant or first octant using
  units and conjugation.
- `BaseSieve` (src/BaseSieve.cpp): the Newton `isqrt`, `mod`, and the insertion
  sort behind `sortBigPrimes`. The sort is proved against a reference sort, and
  the sorted list of a set of points is proved unique.
- `SieveGrid`: shared facts about the jagged boolean arrays.
- `Factorization`: the facts about composites that the sieves rely on. A composite is a
  product of two non-units and has a first-quadrant Gaussian prime factor p with
  N(p)^2 <= N(r). That factor, with its cofactor, folds onto the cell each sieve clears.
- `QuadrantSieve` and `OctantSieve`: the quadrant and octant sieves as classes
  whose fields are updated in place. These cover `setSmallPrimes`,
  `setSieveArray`, `crossOffMultiples`, `sieve`, `run`, `setBigPrimes`,
  `getCountBigPrimes` and `getBigPrimes`. Each array is proved equal to a
  specification function of the small primes. On that function the following are
  proved:
  - every Gaussian prime survives;
  - every composite in range is cleared, so a cell ends on exactly when its point is a Gaussian prime;
  - the harvest emits exactly the surviving points and their flips, in order.
- `DonutTables`, `DonutSmallPrimes` and `OctantDonutSieve`: the "donut"
  compression, which packs the 32 residues coprime to 10 of each 10 x 10 square
  into one 32-bit word. This part covers:
  - the residue/bit tables and their inverses;
  - the gap and start tables;
  - `setFalse` and `setTrue`;
  - the jumping sweep, the harvest and the count;
  - each donut sweep agrees with the same sweep of the octant sieve.
- `BlockWindow`, `BlockSieve` and `BlockDonutSieve`: the sieves of a rectangular
  window of the plane, plain and donut-compressed. This part covers:
  - the window's cofactor ranges;
  - the sweeps, the harvests and the counts;
  - the donut window's constructor check;
  - the agreement of the two window sieves.
- `OctantMoat`: the depth-first search over a sieved octant. This part covers:
  - the same-parity jump neighbours;
  - the stack-based `exploreComponent`, including its fatal escape past the norm
    bound;
  - component sizes and maximal elements;
  - `exploreAllComponents`, proved to partition the true cells into disjoint,
    non-empty components and to leave no cell true.
- `SegmentedStatics`, `SegmentedExplore`, `SegmentedPhases` and
  `SegmentedMoat`: the segmented moat explorer. It streams window blocks from
  left to right. A boundary strip is kept between blocks, and component ids and
  sizes are merged across it. This part covers:
  - the static set-up and the block constructor;
  - `exploreComponent`, with its merges and its size-conservation invariant;
  - the left-boundary and right-boundary phases;
  - `runSegment`, which shifts the right boundary into the next left boundary;
  - the block loop of `getCountMainComponent`.

## Model

| member | source | states |
|---|---|---|
| GaussianInt.Norm64Exact | include/BaseSieve.hpp:13 | for int32 coordinates the uint64 norm a*a + b*b never wraps: it equals a^2 + b^2 and stays below 2^64 |
| GaussianInt.FlipInvolution | include/BaseSieve.hpp:15 | flip swaps the coordinates, so flipping twice gives the point back and flipping keeps the norm |
| GaussianInt.LessIsStrictTotalOrder | include/BaseSieve.hpp:17-26 | on points with b >= 0, operator < (smaller norm first, then larger real part first) is irreflexive, transitive, asymmetric and relates every two distinct points |
| GaussianInt.LessEqTotalPreorder | include/BaseSieve.hpp:17-26 | "not after" (the negation of < with the arguments swapped) is total and transitive on all points, the order std::sort relies on |
| GaussianInt.NotUnit | include/BaseSieve.hpp:13 | a point of norm at least 2 is neither 1 nor i, the two points setSieveArray crosses off |
| GaussianInt.MulNorm | src/OctantSieve.cpp:66-68 | the norm is multiplicative, N(g h) = N(g) N(h), which is why cofactors of norm up to maxNorm / N(g) suffice |
| GaussianInt.MulIffCofactor | src/BlockSieve.cpp:49-54 | p = g h exactly when g divides p with cofactor h: the cofactor loops and "is a multiple of g" describe the same points |
| GaussianInt.SameClassNorm | src/OctantSieve.cpp:85-98 | points that differ by a unit and possibly conjugation have the same norm |
| GaussianInt.OctFold | src/OctantSieve.cpp:85-98 | the unit-and-conjugate fold of crossOffMultiples takes any point of the upper half plane into the first octant |
| GaussianInt.OctFoldKeepsClass | src/OctantSieve.cpp:85-98 | the fold keeps the norm and the class (associates and conjugates) of the point |
| GaussianInt.OctIndex | src/OctantSieve.cpp:72-76 | the cell of a first-quadrant point is the point itself or its flip, in the octant and of the same norm |
| GaussianInt.QuadFold | src/QuadrantSieve.cpp:49-53 | the fold of the quadrant sieve leaves a point of the upper half plane in the first quadrant with the same norm, either unchanged or multiplied by -i |
| BaseSieve.IntSqrtUnique | src/BaseSieve.cpp:212-222 | the integer square root is the unique r with r^2 <= n < (r + 1)^2 |
| BaseSieve.IntSqrtGreatest | src/BaseSieve.cpp:212-222 | the integer square root is the largest r with r^2 <= n |
| BaseSieve.IntSqrtMonotone | src/BaseSieve.cpp:212-222 | the integer square root is monotone in n |
| BaseSieve.NewtonStepAbove | src/BaseSieve.cpp:219 | the Newton step (x + n / x) / 2 never drops below the root |
| BaseSieve.NewtonStepDecreases | src/BaseSieve.cpp:217-219 | above the root the Newton step strictly decreases x, so the loop ends |
| BaseSieve.Isqrt | src/BaseSieve.cpp:213-222 | the Newton iteration from x = n returns the integer square root: r^2 <= n < (r + 1)^2 |
| BaseSieve.Mod | include/BaseSieve.hpp:86 | mod returns the remainder in [0, m) congruent to a modulo m, also for negative a |
| BaseSieve.SortGints | src/BaseSieve.cpp:58-62 | sortBigPrimes leaves a list sorted by gint < and a permutation of its input |
| BaseSieve.InsertKeepsSorted | src/BaseSieve.cpp:58-62 | inserting into a sorted list keeps it sorted |
| BaseSieve.SortedOfSorted | src/BaseSieve.cpp:58-62 | the reference sort SortedOf returns a sorted list |
| BaseSieve.SortedFirstLeast | src/BaseSieve.cpp:58-62 | the head of a sorted list is not after any of its elements |
| BaseSieve.SortedUnique | src/BaseSieve.cpp:58-62 | two sorted permutations of one list of upper-half-plane points are equal, so the sorted output does not depend on the sort algorithm |
| BaseSieve.SortedIsSortedOf | src/BaseSieve.cpp:58-62 | any sorted permutation of upper-half-plane points is the reference sort of the input |
| SieveGrid.MulStepD | src/OctantSieve.cpp:80-81 | u + vi starts at c g and moving from cofactor c + di to c + (d + 1)i adds i g: u -= b, v += a |
| SieveGrid.CompositeNorm | src/OctantSieve.cpp:6-9 | a composite point has a norm that is a product of two integers of at least 2 |
| SieveGrid.NormTwoFivePrime | src/OctantSieve.cpp:6-9 | a point of norm 2 or 5 is a Gaussian prime |
| SieveGrid.SurvivorsMembers | src/OctantSieve.cpp:129-131 | the harvest of a list of points holds exactly the listed points whose cell is true |
| SieveGrid.SurvivorsConcat | src/OctantSieve.cpp:125-137 | harvesting a concatenation is concatenating the harvests, in order |
| SieveGrid.Column | src/OctantSieve.cpp:24-27 | the points a + bi for b = 0 .. top, in order |
| Factorization.ExactFactors | include/BaseSieve.hpp:9-33 | a composite is the product of two factors of norm at least 2 |
| Factorization.UnitTimesComposite | include/BaseSieve.hpp:9-33 | a unit times a composite is composite: the units the sieves fold by keep the class of a point |
| Factorization.FlipCompositeIff | include/BaseSieve.hpp:15 | a + bi is composite exactly when its flip b + ai is |
| Factorization.DiagonalComposite | src/OctantSieve.cpp:124-127 | a point a + ai with a >= 2 is composite, so the harvest may skip the line a = b |
| Factorization.PrimeFactorOf | src/OctantSieve.cpp:8-9 | a factorization g h = r with 2 <= N(g) <= N(h) yields one whose smaller factor is a Gaussian prime |
| Factorization.SmallPrimeFactor | src/OctantSieve.cpp:8-9 | a composite r has a Gaussian prime factor p with N(p)^2 <= N(r) |
| Factorization.FirstQuadrantPrimeFactor | src/OctantSieve.cpp:18-28 | that prime factor can be taken with a > 0 and b >= 0, as the small-prime lists hold them |
| Factorization.OctantCofactor | src/OctantSieve.cpp:84-100 | for an octant composite r = p q, p or its flip times an octant cofactor of the same norm as q folds onto r: the octant sweep of that prime reaches r |
| Factorization.QuadrantCofactor | src/QuadrantSieve.cpp:48-56 | for a quadrant composite r = p q, p times a first-quadrant cofactor of the same norm as q folds onto r: the quadrant sweep of p reaches r |
| BlockWindow.WindowNorm | src/BlockSieve.cpp:8-15 | every point of the block has norm at most the block's maxNorm |
| BlockWindow.WindowFactorBound | src/BlockSieve.cpp:17-25 | a composite point of the block has a non-unit factor of norm at most isqrt(maxNorm), so small primes up to that norm suffice |
| BlockWindow.SmallerFactor | src/BlockSieve.cpp:22 | the smaller of two factors whose product is at most M is at most isqrt(M) |
| BlockWindow.CeilLe | src/BlockSieve.cpp:62-68 | the ceiling quotient is at most d exactly when n <= m d |
| BlockWindow.FloorGe | src/BlockSieve.cpp:66-84 | the floor quotient is at least d exactly when m d <= n |
| BlockWindow.ProjectProduct | src/BlockSieve.cpp:49-53 | a u + b v = N(g) c for u + vi = g (c + di), the identity behind the c bounds |
| BlockWindow.CRange | src/BlockSieve.cpp:64-70 | every cofactor c + di whose product lies in the block has c between the computed cLow and cUpper |
| BlockWindow.ColumnExact | src/BlockSieve.cpp:72-85 | within the c range, the product g (c + di) lies in the block exactly when d lies between the computed d and dUpper |
| DonutTables.Coprime10Meaning | src/OctantDonutSieve.cpp:100-102 | the residue test used for the donut says exactly that p is divisible by none of 1 + i, 2 + i and 1 + 2i (the primes dividing 10) |
| DonutTables.MulCoprime10 | src/OctantDonutSieve.cpp:100-102 | a product is coprime to 10 exactly when both factors are, so the donut may skip every cofactor that is not coprime to 10 |
| DonutTables.ClassCoprime10 | src/OctantDonutSieve.cpp:117-139 | associates and conjugates agree on coprimality to 10, so folding a product into the octant keeps it in the donut |
| DonutTables.Coprime10Shift | src/OctantDonutSieve.cpp:163 | coprimality to 10 depends only on the residues of both coordinates modulo 10 |
| DonutTables.BitTable | src/OctantDonutSieve.cpp:36-48 | bitDonut gives each of the 32 residues coprime to 10 a bit below 32 that the decompress arrays map back to the residue, and marks every other residue with 99 |
| DonutTables.DecompressTable | src/OctantDonutSieve.cpp:36-48 | realPartDecompress and imagPartDecompress map every bit to a residue coprime to 10 whose bitDonut entry is that bit |
| DonutTables.GapTable | src/OctantDonutSieve.cpp:24-33 | gapDonut is non-zero exactly on the residues coprime to 10 |
| DonutTables.GapNext | src/OctantDonutSieve.cpp:24-33 | on a residue coprime to 10, d + gapDonut[c][d] is again coprime to 10 |
| DonutTables.GapSkip | src/OctantDonutSieve.cpp:24-33 | no d strictly between d and d + gapDonut[c][d] is coprime to 10 |
| DonutTables.DStartFirst | src/OctantDonutSieve.cpp:19 | dStart[c] is a d below 10 with c + di coprime to 10 |
| DonutTables.DStartLeast | src/OctantDonutSieve.cpp:19 | no d below dStart[c] makes c + di coprime to 10 |
| DonutTables.WheelStep | src/OctantDonutSieve.cpp:140-143 | for any c + di coprime to 10 the jump gapDonut[c % 10][d % 10] is positive, lands on the next d with c + di coprime to 10 and skips none |
| DonutTables.WheelStart | src/OctantDonutSieve.cpp:108 | dStart[c % 10] is the least d >= 0 with c + di coprime to 10, for every c |
| DonutTables.ClearBitEffect | src/OctantDonutSieve.cpp:164 | w & ~(1 << k) clears bit k and keeps every other bit |
| DonutTables.SetBitEffect | src/OctantDonutSieve.cpp:171 | w \| (1 << k) sets bit k and keeps every other bit |
| DonutTables.AllOnesBits | src/OctantDonutSieve.cpp:82 | the all-ones word has every bit set |
| DonutTables.PtCoprime | src/OctantDonutSieve.cpp:194 | the point decoded from bit k of word (A, B) lies in the first quadrant and is coprime to 10 |
| DonutTables.PtHome | src/OctantDonutSieve.cpp:163-164 | the point decoded from bit k of word (A, B) is stored by setFalse in word (A, B) at bit k |
| DonutTables.PtOf | src/OctantDonutSieve.cpp:163-164 | decoding the word and bit setFalse uses for a point coprime to 10 gives the point back |
| DonutTables.PtIdent | src/OctantDonutSieve.cpp:163-164 | word (A, B) bit k decodes to u + vi exactly when u + vi is coprime to 10 and (A, B, k) is the place setFalse(u, v) uses: storage is a bijection |
| DonutTables.SameBitSamePoint | src/OctantDonutSieve.cpp:163-164 | two points coprime to 10 that share a word and a bit are the same point |
| DonutTables.ClearCellAt | src/OctantDonutSieve.cpp:160-165 | setFalse(u, v) keeps the shape and clears the bit of u + vi and no other point's bit |
| DonutTables.SetCellAt | src/OctantDonutSieve.cpp:167-172 | setTrue(u, v) keeps the shape and sets the bit of u + vi and no other point's bit |
| DonutTables.BitIsPoint | src/OctantDonutSieve.cpp:192-194 | bit k of word (A, B) is the value of the point decoded from it |
| DonutSmallPrimes.SmallFactor | src/OctantDonutSieve.cpp:96-102 | an octant point of norm above 5 that is not coprime to 10 folds from p h with p one of 1 + i, 2 + i, 1 + 2i and h a non-unit octant cofactor (norm at least 25 when p is 2 + i or 1 + 2i) |
| DonutSmallPrimes.SetAtTurn | src/OctantSieve.cpp:70-76 | 1 + i, 2 + i and 1 + 2i still have their cells set when their turn in the octant sieve comes, so they sweep |
| DonutSmallPrimes.SurvivorCoprime | src/OctantDonutSieve.cpp:96-102 | an octant cell of norm above 5 that survives the octant sieve is coprime to 10 |
| DonutSmallPrimes.HarvestCoprime | src/OctantDonutSieve.cpp:52-63 | every small prime the inner octant sieve returns is a valid sweep for the donut sieve: first quadrant, norm at least 2 and at most maxNorm, and coprime to 10 when its norm is above 5 |
| DonutSmallPrimes.ListedPrime | src/OctantSieve.cpp:14-38 | 1 + i heads the small-prime list, and 2 + i and 1 + 2i are in it once the radius reaches 25 |
| OctantSieve.ShapeExact | src/OctantSieve.cpp:42-56 | column i of the array has a cell at height j exactly when 0 <= j <= i and i^2 + j^2 <= maxNorm |
| OctantSieve.WrittenHeightWraps | src/OctantSieve.cpp:50-52 | with a * a taken modulo 2^32, the last column of maxNorm = 2^32 gets 65537 cells where it holds one point |
| OctantSieve.InitialGrid | src/OctantSieve.cpp:44-62 | the allocated array has isqrt(maxNorm) + 1 columns, column a of the computed height |
| OctantSieve.InitialGridCells | src/OctantSieve.cpp:44-62 | after allocation the cells are exactly the octant points of norm at most maxNorm, and a cell is true exactly when its norm is at least 2 (0 and 1 crossed off) |
| OctantSieve.FoldPreimages | src/OctantSieve.cpp:85-98 | the only points of the upper half plane that fold onto cell (i, j) are i + ji, j + ii, -j + ii and -i + ji |
| OctantSieve.StruckByStep | src/OctantSieve.cpp:84-100 | stepping the cofactor from c + di to c + (d + 1)i adds exactly the cell of g (c + di) to the cells struck so far |
| OctantSieve.StruckCellStep | src/OctantSieve.cpp:86-98 | one pass of the d loop clears the folded cell of u + vi and leaves every other cell as it was |
| OctantSieve.SweptNormBound | src/OctantSieve.cpp:79-83 | every cofactor the c and d loops visit has N(g) N(h) <= maxNorm |
| OctantSieve.ProductCell | src/OctantSieve.cpp:86-98 | every product g (c + di) the loops visit lies in the upper half plane and folds onto a cell of the array, so no write is out of bounds |
| OctantSieve.StruckStart | src/OctantSieve.cpp:78-79 | before the first cofactor (c = 1, d = 0) nothing is struck |
| OctantSieve.StruckNextColumn | src/OctantSieve.cpp:84-102 | finishing the d loop of column c is the same as starting column c + 1 |
| OctantSieve.Home | src/OctantSieve.cpp:72-76 | the cell checked by the early exit is an octant point of the same norm and class as g |
| OctantSieve.CrossOffAt | src/OctantSieve.cpp:70-109 | after crossOffMultiples(g) a cell is unchanged when g's cell was already false; otherwise g's cell is true and every other cell is cleared exactly when a swept multiple folds onto it |
| OctantSieve.CrossOffClearsMultiples | src/OctantSieve.cpp:65-69 | completeness of one sweep: when g's cell is true, the cell of every product g h, h in the first octant, h != 1, N(g) N(h) <= maxNorm, ends false |
| OctantSieve.CrossOffClearsOnlyMultiples | src/OctantSieve.cpp:103-109 | soundness of one sweep: a cell the sweep clears holds, up to units and conjugation, g times a cofactor of norm at least 2 |
| OctantSieve.ProductAwayFromHome | src/OctantSieve.cpp:103-109 | a product of g with a non-unit cofactor never folds onto g's own cell, so re-marking g restores only g |
| OctantSieve.CrossOffMonotone | src/OctantSieve.cpp:70-109 | a sweep never sets a cell true that was false, and g's own cell keeps its value |
| OctantSieve.CrossOffIdempotent | src/OctantSieve.cpp:70-109 | sweeping twice with the same g changes nothing the second time |
| OctantSieve.SieveWithMonotone | src/BaseSieve.cpp:19-33 | sieving never sets a cell true |
| OctantSieve.SieveWithClearsOnlyComposites | src/BaseSieve.cpp:19-33 | soundness of the sieve: every cell it clears holds a composite point |
| OctantSieve.SieveWithSplit | src/BaseSieve.cpp:24-26 | sieving with a list is sieving with its first k primes, then with the rest |
| OctantSieve.SieveWithClearsMultiples | src/BaseSieve.cpp:24-26 | completeness: for each small prime still marked at its turn, every octant multiple by a non-unit within the bound ends false |
| OctantSieve.PrimesSurvive | src/OctantSieve.cpp:6-9 | after run() every octant point of norm 2 .. maxNorm that is a Gaussian prime still has its cell true |
| OctantSieve.BUpperExact | src/OctantSieve.cpp:124-127 | column a of the harvest visits b <= bUpper exactly for the points with b < a and a^2 + b^2 <= maxNorm |
| OctantSieve.ScanMembers | src/OctantSieve.cpp:125-128 | the scan from column a0 >= 1 visits exactly the points a + bi with a >= a0, 0 <= b < a and norm at most maxNorm |
| OctantSieve.WithFlipsMembers | src/OctantSieve.cpp:33-38 | a point is in the list with flips exactly when it or (off the imaginary axis) its flip is in the list |
| OctantSieve.WithFlipsConcat | src/OctantSieve.cpp:33-38 | adding flips distributes over concatenation |
| OctantSieve.HarvestMembers | src/OctantSieve.cpp:117-141 | the harvest holds 1 + i (when maxNorm >= 2) and exactly the first-quadrant points off the diagonal and off the imaginary axis, of norm at most maxNorm, whose cell has real part at least 2 and is true |
| OctantSieve.HarvestStep | src/OctantSieve.cpp:129-135 | scanning one more point adds it and, off the real axis, its flip exactly when its cell is true |
| OctantSieve.SweepBounds | src/OctantSieve.cpp:79-82 | the c loop runs to isqrt(maxNorm / N(g)) and the diagonal crossing is isqrt(maxNorm / (2 N(g))) |
| OctantSieve.SmallPrimeListValid | src/OctantSieve.cpp:10-39 | every entry of the small-prime list is a first-quadrant non-unit within the bound that the sweep accepts |
| OctantSieve.CandidatesSorted | src/OctantSieve.cpp:29-30 | any sorted permutation of the candidate scan is the reference sorted candidate list |
| OctantSieve.ComputeBUpper | src/OctantSieve.cpp:23 | bUpper is a - 1 up to the diagonal crossing and isqrt(rt - a^2) beyond it, the exact column bound |
| OctantSieve.ScanCandidates | src/OctantSieve.cpp:20-28 | the candidate loops list exactly the scan of radius isqrt(maxNorm) from column 2, in column order |
| OctantSieve.CandidateColumn | src/OctantSieve.cpp:23-27 | the inner candidate loop lists column a from b = 0 to bUpper |
| OctantSieve.SortedCandidates | src/OctantSieve.cpp:17-30 | the candidates after std::sort are the reference sort of the scan |
| OctantSieve.HarvestScan | src/OctantSieve.cpp:124-137 | the harvest loops return the points of the scan whose cell is true, each followed by its flip when off the real axis |
| OctantSieve.HarvestColumn | src/OctantSieve.cpp:128-136 | the inner harvest loop does the same for column a |
| OctantSieve.CountScan | src/OctantSieve.cpp:152-164 | the count loops return the length of the harvest of the scan without building it |
| OctantSieve.CountColumn | src/OctantSieve.cpp:156-163 | the inner count loop does the same for column a |
| OctantSieve.CompositesCleared | src/BaseSieve.cpp:19-33 | completeness of the run: every octant composite of norm at most maxNorm ends with a false cell |
| OctantSieve.SievedExact | src/BaseSieve.cpp:46-50 | after the run an octant point of norm 2 to maxNorm is on exactly when it is a Gaussian prime |
| OctantSieve.SievedAllExact | src/BaseSieve.cpp:46-50 | the same for every such point at once |
| OctantSieve.HarvestIsPrimes | src/OctantSieve.cpp:117-141 | setBigPrimes after the run collects exactly the Gaussian primes a + bi with a > 0, b >= 0 and norm 2 to maxNorm |
| OctantSieve.HarvestDistinct | src/OctantSieve.cpp:117-141 | the harvest lists no point twice |
| OctantSieve.HarvestListsAllPrimes | src/OctantSieve.cpp:117-141 | any ordering of the harvest holds Gaussian primes only and all of them with a > 0, b >= 0 and norm 2 to maxNorm |
| OctantSieve.OctantSieve.constructor | src/BaseSieve.cpp:9-17 | a new sieve has the given maxNorm and empty prime lists and array |
| OctantSieve.OctantSieve.SetSmallPrimes | src/OctantSieve.cpp:10-39 | setSmallPrimes appends 1 + i, then the sorted candidates each followed by its flip when b != 0 |
| OctantSieve.OctantSieve.AppendWithFlips | src/OctantSieve.cpp:33-38 | the last loop appends each point and, off the real axis, its flip |
| OctantSieve.OctantSieve.SetSieveArray | src/OctantSieve.cpp:44-62 | setSieveArray allocates the octant array with every cell true but those of 0 and 1 |
| OctantSieve.OctantSieve.Sieve | src/BaseSieve.cpp:19-33 | sieve() crosses off the multiples of each small prime in list order |
| OctantSieve.OctantSieve.Run | src/BaseSieve.cpp:46-50 | run() leaves the small-prime list and the array sieved with it, and then an octant point of norm 2 to maxNorm is on exactly when it is a Gaussian prime: every such composite is off |
| OctantSieve.OctantSieve.SetBigPrimes | src/OctantSieve.cpp:117-141 | setBigPrimes appends the harvest of the array |
| OctantSieve.OctantSieve.GetCountBigPrimes | src/OctantSieve.cpp:145-170 | getCountBigPrimes returns four times the length of the harvest |
| OctantSieve.OctantSieve.GetBigPrimes | src/BaseSieve.cpp:52-62 | getBigPrimes returns the big primes sorted, a permutation of the old list plus the harvest |
| OctantSieve.OctantSieve.CrossOffMultiples | src/OctantSieve.cpp:70-113 | crossOffMultiples(g) leaves the array as the reference CrossOff: unchanged when g's cell is false, else the multiples cleared and g's cell re-marked |
| OctantSieve.OctantSieve.SweepMultiples | src/OctantSieve.cpp:79-102 | the c loop clears exactly the cells struck by the swept cofactors |
| OctantSieve.OctantSieve.ColumnTop | src/OctantSieve.cpp:82-83 | dUpper is c up to the diagonal crossing and isqrt(maxNorm / N(g) - c^2) beyond it |
| OctantSieve.OctantSieve.SweepColumn | src/OctantSieve.cpp:80-101 | the d loop of column c strikes the cofactors c + 0i .. c + dUpper i |
| OctantSieve.OctantSieve.StrikeProduct | src/OctantSieve.cpp:86-98 | one pass of the d loop clears the folded cell of u + vi = g (c + di) |
| OctantDonutSieve.InitialWordsBits | src/OctantDonutSieve.cpp:65-92 | after setSieveArray a point has a bit exactly where the all-ones array stores it, and its bit is on exactly when it is neither 1 nor i |
| OctantDonutSieve.StoredInGrid | src/OctantDonutSieve.cpp:77-85 | every octant point of norm at most maxNorm that is coprime to 10 has a bit in the allocated array |
| OctantDonutSieve.WordBelowCircle | src/OctantDonutSieve.cpp:80-81 | the word (a / 10, b / 10) of a point of norm at most maxNorm lies under the computed column height |
| OctantDonutSieve.ProductCellCoprime | src/OctantDonutSieve.cpp:100-102 | the folded cell of g h is coprime to 10 exactly when g and h both are |
| OctantDonutSieve.SkipRun | src/OctantDonutSieve.cpp:140-143 | cofactors skipped by the wheel (not coprime to 10) strike no stored point |
| OctantDonutSieve.StruckClear | src/OctantDonutSieve.cpp:117-139 | clearing the folded cell of g (c + di) takes the array from "struck up to d" to "struck up to d + 1", and that cell has a bit |
| OctantDonutSieve.StruckNextColumn | src/OctantDonutSieve.cpp:115 | once d passes dBound, the array struck up to column c is the array struck before column c + 1 |
| OctantDonutSieve.ColumnStart | src/OctantDonutSieve.cpp:108 | starting column c at dStart[c % 10] skips no stored point and starts on a cofactor coprime to 10 |
| OctantDonutSieve.JumpOn | src/OctantDonutSieve.cpp:140-143 | the jump moves d to the next cofactor coprime to 10, keeps the array struck up to it, and moves u + vi by gap times i g |
| OctantDonutSieve.HomeStored | src/OctantDonutSieve.cpp:146-153 | the cell of g re-marked by setTrue has a bit |
| OctantDonutSieve.SweptAfterRemark | src/OctantDonutSieve.cpp:106-153 | the c loop followed by setTrue on g's cell leaves exactly the array DonutSwept describes: g's point on, every other point on only when it was on and no swept multiple folds onto it |
| OctantDonutSieve.SweepClearsOnlyMultiples | src/OctantDonutSieve.cpp:94-158 | soundness of one sweep: a point the sweep turns off is, up to units and conjugation, g times a cofactor of norm at least 2 |
| OctantDonutSieve.SweepClearsMultiples | src/OctantDonutSieve.cpp:94-158 | completeness of one sweep: every product of g with a non-unit octant cofactor coprime to 10 within the bound is stored and ends off |
| OctantDonutSieve.SmallNormShared | src/OctantDonutSieve.cpp:96-99 | a prime of norm 2 .. 5 is not coprime to 10, so the early exit skips exactly the primes the donut leaves out |
| OctantDonutSieve.SweepAgrees | src/OctantDonutSieve.cpp:94-158 | one sweep of the octant sieve and the same sweep of the donut keep the two arrays equal on every point coprime to 10 |
| OctantDonutSieve.InitialPrimesOn | src/OctantDonutSieve.cpp:86-87 | after setSieveArray every stored Gaussian prime has its bit on |
| OctantDonutSieve.SievedWithKeepsPrimes | src/BaseSieve.cpp:19-33 | sieving with any list of valid small primes keeps the shape and keeps every stored Gaussian prime on |
| OctantDonutSieve.WordPoints | src/OctantDonutSieve.cpp:190-194 | the 32 points decoded from the bits of word (A, B), in bit order |
| OctantDonutSieve.WordPointsMembers | src/OctantDonutSieve.cpp:190-194 | the points of word (A, B) are exactly the first-quadrant points coprime to 10 with a / 10 == A and b / 10 == B |
| OctantDonutSieve.DScanMembers | src/OctantDonutSieve.cpp:77-85 | the scan of the allocated words visits exactly the first-quadrant points coprime to 10 whose word lies in the allocated array |
| OctantDonutSieve.DSurvivorsMembers | src/OctantDonutSieve.cpp:192-198 | the harvest of a list keeps exactly the points whose bit is on, of norm at most maxNorm, with a != 0 and a > b |
| OctantDonutSieve.DHarvestMembers | src/OctantDonutSieve.cpp:174-212 | the harvest holds 1 + i, 2 + i, 1 + 2i and exactly the first-quadrant points off the diagonal and off the imaginary axis of norm at most maxNorm whose octant cell is on |
| OctantDonutSieve.PrimesHarvested | src/OctantDonutSieve.cpp:174-212 | when every stored prime is on, every octant Gaussian prime of norm 2 .. maxNorm is harvested, and so is its flip off the real axis |
| OctantDonutSieve.NotCoprimeComposite | src/OctantDonutSieve.cpp:100-102 | an octant point of norm above 5 that is not coprime to 10 is composite |
| OctantDonutSieve.SmallHarvested | src/OctantDonutSieve.cpp:181-183 | 1 + i, 2 + i and 1 + 2i are always in the harvest |
| OctantDonutSieve.KeptBit | src/OctantDonutSieve.cpp:192-196 | the point of bit k is kept exactly when the bit is on and the point has norm at most maxNorm, a != 0 and a > b |
| OctantDonutSieve.HarvestBit | src/OctantDonutSieve.cpp:190-204 | the body of the bit loop appends the point and its flip off the real axis exactly when the point is kept |
| OctantDonutSieve.CountBit | src/OctantDonutSieve.cpp:227-243 | the body of the count loop adds the number of points HarvestBit would append |
| OctantDonutSieve.HarvestWord | src/OctantDonutSieve.cpp:190-205 | the bit loop over word (A, B) harvests the word's points in bit order |
| OctantDonutSieve.HarvestColumn | src/OctantDonutSieve.cpp:188-206 | the b loop harvests the words 0 .. bBound of column A |
| OctantDonutSieve.WordTop | src/OctantDonutSieve.cpp:80-81 | the column bound computed with isqrt(x / 200) is one less than the height setSieveArray allocates |
| OctantDonutSieve.FullColumns | src/OctantDonutSieve.cpp:77-85 | the allocation loop builds column A of DHeight(maxNorm, A) all-ones words for A = 0 .. isqrt(x) / 10 |
| OctantDonutSieve.HarvestScan | src/OctantDonutSieve.cpp:184-207 | the harvest loops (with the heights of setSieveArray) return the kept points of every allocated word, each followed by its flip off the real axis |
| OctantDonutSieve.HarvestAll | src/OctantDonutSieve.cpp:180-207 | 1 + i, 2 + i and 1 + 2i followed by the harvest of the words is the reference harvest |
| OctantDonutSieve.CountWord | src/OctantDonutSieve.cpp:227-244 | the count over one word is the length of its harvest |
| OctantDonutSieve.CountColumn | src/OctantDonutSieve.cpp:225-245 | the count over one column is the length of its harvest |
| OctantDonutSieve.CountScan | src/OctantDonutSieve.cpp:221-246 | the count loops return the length of the harvest of the words without building it |
| OctantDonutSieve.ScanIsStored | src/OctantDonutSieve.cpp:77-85 | with the heights of setSieveArray the scan visits exactly the stored points |
| OctantDonutSieve.WrittenTopOverruns | src/OctantDonutSieve.cpp:186-187 | with the diagonal taken at isqrt(x / 20), x = 10000 makes the harvest read word 8 of column 8, which setSieveArray allocates with 7 words |
| OctantDonutSieve.TraceClearsComposites | src/BaseSieve.cpp:19-33 | completeness: with all Gaussian primes up to isqrt(maxNorm) as small primes, every stored octant composite coprime to 10 ends off |
| OctantDonutSieve.SievedWithExact | src/BaseSieve.cpp:46-50 | after the run an octant point coprime to 10 of norm 2 to maxNorm is on exactly when it is a Gaussian prime |
| OctantDonutSieve.DHarvestSound | src/OctantDonutSieve.cpp:174-212 | everything setBigPrimes collects is a Gaussian prime a + bi with a > 0, b >= 0, norm at least 2 and at most maxNorm (or one of the three primes of norm 2 and 5 put in by hand) |
| OctantDonutSieve.DHarvestComplete | src/OctantDonutSieve.cpp:174-212 | every Gaussian prime a + bi with a > 0, b >= 0 and norm 2 to maxNorm is collected |
| OctantDonutSieve.DHarvestIsPrimes | src/OctantDonutSieve.cpp:174-212 | for maxNorm >= 5 the harvest is exactly those Gaussian primes |
| OctantDonutSieve.DHarvestDistinct | src/OctantDonutSieve.cpp:174-212 | the harvest lists no point twice |
| OctantDonutSieve.SortedHarvestsAgree | src/test.cpp:17-44 | the sorted outputs of the octant sieve and of the octant donut sieve of the same radius are the same list |
| OctantDonutSieve.CompareOctantSieves | src/test.cpp:17-44 | both sieves of radius x, run and harvested, give equal sorted lists, which hold exactly the Gaussian primes a + bi with a > 0, b >= 0 and norm 2 to x |
| OctantDonutSieve.OctantPrimes | src/test.cpp:18-21 | an octant sieve of radius x, run and harvested, returns a sorted list with the same elements as its setBigPrimes output |
| OctantDonutSieve.DonutOctantPrimes | src/test.cpp:26-29 | an octant donut sieve of radius x, run and harvested, returns a sorted list with the same elements as its setBigPrimes output, after sieving with exactly the Gaussian primes up to isqrt(x) |
| OctantDonutSieve.OctantPrimesExact | src/test.cpp:18-21 | the octant sieve's output holds exactly the Gaussian primes a + bi with a > 0, b >= 0 and norm 2 to x |
| OctantDonutSieve.OctantDonutSieve.constructor | src/OctantDonutSieve.cpp:8-50 | a new donut sieve has the given maxNorm and empty lists and array |
| OctantDonutSieve.OctantDonutSieve.SetSieveArray | src/OctantDonutSieve.cpp:65-92 | setSieveArray allocates every column of all-ones words and clears the bits of 1 and i |
| OctantDonutSieve.OctantDonutSieve.SetFalse | src/OctantDonutSieve.cpp:160-165 | setFalse(u, v) clears the bit of u + vi and nothing else |
| OctantDonutSieve.OctantDonutSieve.SetTrue | src/OctantDonutSieve.cpp:167-172 | setTrue(u, v) sets the bit of u + vi and nothing else |
| OctantDonutSieve.OctantDonutSieve.CrossOffMultiples | src/OctantDonutSieve.cpp:94-158 | for N(g) <= 5 the array is unchanged; otherwise it is DonutSwept: g's point on, every other point on only when it was on and no swept multiple of g folds onto it |
| OctantDonutSieve.OctantDonutSieve.SweepMultiples | src/OctantDonutSieve.cpp:106-145 | the c loop leaves every stored point struck by the swept cofactors off and the rest as they were |
| OctantDonutSieve.OctantDonutSieve.SweepColumn | src/OctantDonutSieve.cpp:108-144 | the wheel loop of column c strikes every cofactor c + di, d <= dBound, coprime to 10 |
| OctantDonutSieve.OctantDonutSieve.StrikeProduct | src/OctantDonutSieve.cpp:117-139 | one pass clears the folded cell of u + vi = g (c + di) |
| OctantDonutSieve.OctantDonutSieve.StrikeAndJump | src/OctantDonutSieve.cpp:117-143 | one pass clears the folded cell of g (c + di) and jumps to the next d coprime to 10, with u + vi = g (c + d' i) |
| OctantDonutSieve.OctantDonutSieve.SetSmallPrimes | src/OctantDonutSieve.cpp:52-63 | the small primes are the sorted output of an octant sieve of radius isqrt(maxNorm) |
| OctantDonutSieve.OctantDonutSieve.Sieve | src/BaseSieve.cpp:19-33 | sieve() applies crossOffMultiples for each small prime in order (a trace of DonutSwept steps) |
| OctantDonutSieve.OctantDonutSieve.Run | src/BaseSieve.cpp:46-50 | run() leaves the sorted octant-sieve primes for isqrt(maxNorm) and an array sieved from setSieveArray's; every stored Gaussian prime is on and an octant point coprime to 10 of norm 2 to maxNorm is on exactly when it is a Gaussian prime |
| OctantDonutSieve.OctantDonutSieve.SetBigPrimes | src/OctantDonutSieve.cpp:174-212 | setBigPrimes appends the reference harvest |
| OctantDonutSieve.OctantDonutSieve.GetCountBigPrimes | src/OctantDonutSieve.cpp:214-254 | getCountBigPrimes returns four times the length of the harvest |
| OctantDonutSieve.OctantDonutSieve.GetBigPrimes | src/BaseSieve.cpp:52-62 | getBigPrimes returns the big primes sorted, a permutation of the old list plus the harvest |
| QuadrantSieve.ShapeExact | src/QuadrantSieve.cpp:28-31 | column i of the array has a cell at height j exactly when i <= isqrt(maxNorm) and i^2 + j^2 <= maxNorm |
| QuadrantSieve.InitialGrid | src/QuadrantSieve.cpp:21-39 | the allocated array has isqrt(maxNorm) + 1 columns, column a of height isqrt(maxNorm - a^2) + 1 |
| QuadrantSieve.InitialGridCells | src/QuadrantSieve.cpp:21-39 | after allocation the cells are exactly the first-quadrant points of norm at most maxNorm, and a cell is true exactly when its norm is at least 2 (0, 1 and i crossed off) |
| QuadrantSieve.CellInGrid | src/QuadrantSieve.cpp:24 | every first-quadrant point of norm at most maxNorm has a cell |
| QuadrantSieve.FoldPreimages | src/QuadrantSieve.cpp:49-53 | the only points of the upper half plane that land on cell (i, j) are i + ji and its turn -j + ii |
| QuadrantSieve.StruckByStep | src/QuadrantSieve.cpp:48-56 | stepping the cofactor from c + di to c + (d + 1)i adds exactly the cell of g (c + di) to the cells struck so far |
| QuadrantSieve.StruckCellStep | src/QuadrantSieve.cpp:49-53 | one pass of the d loop clears the cell of u + vi and leaves every other cell as it was |
| QuadrantSieve.StruckStep | src/QuadrantSieve.cpp:49-53 | the same step as a single update of the array |
| QuadrantSieve.SweptNormBound | src/QuadrantSieve.cpp:45-48 | every cofactor the c and d loops visit has N(g) N(h) <= maxNorm |
| QuadrantSieve.ProductCell | src/QuadrantSieve.cpp:46-53 | every product g (c + di) the loops visit lies in the upper half plane and lands on a cell of the array, so no write is out of bounds |
| QuadrantSieve.StruckStart | src/QuadrantSieve.cpp:45 | before the first cofactor (c = 1, d = 0) nothing is struck |
| QuadrantSieve.StruckNextColumn | src/QuadrantSieve.cpp:45-57 | finishing the d loop of column c is the same as starting column c + 1 |
| QuadrantSieve.CrossOffAt | src/QuadrantSieve.cpp:41-62 | after crossOffMultiples(g) a cell is unchanged when g's cell was already false; otherwise g's cell is true and every other cell is cleared exactly when a swept multiple lands on it |
| QuadrantSieve.SweptOfBound | src/QuadrantSieve.cpp:44-48 | every first-quadrant cofactor off the imaginary axis with N(g) N(h) <= maxNorm is visited by the loops |
| QuadrantSieve.StruckFactor | src/QuadrantSieve.cpp:46-53 | a struck cell holds, up to a unit, g times a swept cofactor |
| QuadrantSieve.StruckProduct | src/QuadrantSieve.cpp:44-57 | the cell of every product g h within the bound is struck by the time the loops end |
| QuadrantSieve.ProductAwayFromHome | src/QuadrantSieve.cpp:58 | a product of g with a cofactor other than 1 never lands on g's own cell, so re-marking g restores only g |
| QuadrantSieve.CrossOffClearsMultiples | src/QuadrantSieve.cpp:41-62 | completeness of one sweep: when g's cell is true, the cell of every product g h, h in the first quadrant off the imaginary axis, h != 1, N(g) N(h) <= maxNorm, ends false |
| QuadrantSieve.CrossOffClearsOnlyMultiples | src/QuadrantSieve.cpp:41-62 | soundness of one sweep: a cell the sweep clears holds, up to a unit, g times a cofactor of norm at least 2 |
| QuadrantSieve.CrossOffMonotone | src/QuadrantSieve.cpp:41-62 | a sweep never sets a cell true that was false, and g's own cell keeps its value |
| QuadrantSieve.CrossOffIdempotent | src/QuadrantSieve.cpp:41-62 | sweeping twice with the same g changes nothing the second time |
| QuadrantSieve.SieveWithMonotone | src/BaseSieve.cpp:19-33 | sieving never sets a cell true |
| QuadrantSieve.PrimesUsableTail | src/BaseSieve.cpp:24-26 | after the first prime's sweep the remaining small primes still meet the sweep's conditions |
| QuadrantSieve.SieveWithClearsOnlyComposites | src/BaseSieve.cpp:19-33 | soundness of the sieve: every cell it clears holds a composite point |
| QuadrantSieve.SieveWithSplit | src/BaseSieve.cpp:24-26 | sieving with a list is sieving with its first k primes, then with the rest |
| QuadrantSieve.SieveWithClearsMultiples | src/BaseSieve.cpp:24-26 | completeness: for each small prime still marked at its turn, every first-quadrant multiple by a non-unit within the bound ends false |
| QuadrantSieve.ScanMembers | src/QuadrantSieve.cpp:69-70 | the scan from column a0 visits exactly the points a + bi with a >= a0, b >= 0 and norm at most maxNorm |
| QuadrantSieve.ScanStep | src/QuadrantSieve.cpp:69-76 | the scan is column a followed by the scan from column a + 1 |
| QuadrantSieve.ScanEnd | src/QuadrantSieve.cpp:69 | past column isqrt(maxNorm) the scan is empty |
| QuadrantSieve.SmallPrimeListSorted | src/QuadrantSieve.cpp:17 | the small-prime list is sorted by the gint order |
| QuadrantSieve.SmallPrimeListMembers | src/QuadrantSieve.cpp:11-16 | the small-prime list holds exactly the points a + bi with a >= 1, b >= 0 and norm at most isqrt(maxNorm) |
| QuadrantSieve.SmallPrimeListSweepable | src/QuadrantSieve.cpp:5-18 | every entry of the small-prime list lies off the imaginary axis and can be swept in the array |
| QuadrantSieve.SmallPrimeListUsable | src/QuadrantSieve.cpp:6-7 | in the freshly allocated array the only unit among the small primes, 1, has a false cell, so only primes do any crossing off |
| QuadrantSieve.Sieved | src/BaseSieve.cpp:46-50 | the array after run() keeps the shape of the allocated array |
| QuadrantSieve.PrimesSurvive | src/QuadrantSieve.cpp:41-62 | after run() every first-quadrant point of norm 2 .. maxNorm that is a Gaussian prime still has its cell true |
| QuadrantSieve.HarvestMembers | src/QuadrantSieve.cpp:65-80 | the harvest holds exactly the points a + bi with a >= 1, b >= 0, norm at most maxNorm, whose cell is true |
| QuadrantSieve.HarvestStep | src/QuadrantSieve.cpp:71-74 | scanning one more point of a column adds it exactly when its cell is true |
| QuadrantSieve.HarvestAccumulate | src/QuadrantSieve.cpp:69-76 | appending a column's survivors to those found so far gives the survivors of the longer scan |
| QuadrantSieve.ColumnHeight | src/QuadrantSieve.cpp:70 | the column top isqrt(x - a^2) + 1 is the exact height of column a |
| QuadrantSieve.ScanCell | src/QuadrantSieve.cpp:70-71 | every point the scan visits has a cell, so sieveArray[a][b] is in bounds |
| QuadrantSieve.ScanCandidates | src/QuadrantSieve.cpp:11-16 | the candidate loops list exactly the scan of radius isqrt(maxNorm) from column 1, in column order |
| QuadrantSieve.CandidateColumn | src/QuadrantSieve.cpp:12-15 | the inner candidate loop lists column a from b = 0 to its top |
| QuadrantSieve.HarvestNext | src/QuadrantSieve.cpp:69-76 | one pass of the outer harvest loop extends the harvest by column a |
| QuadrantSieve.HarvestScan | src/QuadrantSieve.cpp:69-76 | the harvest loops return the points of the scan whose cell is true, in scan order |
| QuadrantSieve.HarvestColumn | src/QuadrantSieve.cpp:70-75 | the inner harvest loop does the same for column a |
| QuadrantSieve.CountNext | src/QuadrantSieve.cpp:87-93 | one pass of the outer count loop adds the survivors of column a |
| QuadrantSieve.CountScan | src/QuadrantSieve.cpp:87-93 | the count loops return the length of the harvest without building it |
| QuadrantSieve.CountColumn | src/QuadrantSieve.cpp:88-92 | the inner count loop does the same for column a |
| QuadrantSieve.CompositesCleared | src/BaseSieve.cpp:19-33 | completeness of the run: every composite a + bi with a >= 1, b >= 0 and norm at most maxNorm ends with a false cell |
| QuadrantSieve.SievedExact | src/BaseSieve.cpp:46-50 | after the run such a point of norm 2 to maxNorm is on exactly when it is a Gaussian prime |
| QuadrantSieve.HarvestIsPrimes | src/QuadrantSieve.cpp:65-80 | setBigPrimes after the run collects exactly the Gaussian primes a + bi with a > 0, b >= 0 and norm 2 to maxNorm |
| QuadrantSieve.QuadrantSieve.constructor | src/BaseSieve.cpp:9-17 | a new sieve has the given maxNorm and empty prime lists and array |
| QuadrantSieve.QuadrantSieve.SetSmallPrimes | src/QuadrantSieve.cpp:5-18 | setSmallPrimes leaves a sorted permutation of the old list plus the candidates; from an empty list that is the reference small-prime list |
| QuadrantSieve.QuadrantSieve.SetSieveArray | src/QuadrantSieve.cpp:21-39 | setSieveArray allocates the quadrant array with every cell true but those of 0, 1 and i |
| QuadrantSieve.QuadrantSieve.Sieve | src/BaseSieve.cpp:19-33 | sieve() crosses off the multiples of each small prime in list order |
| QuadrantSieve.QuadrantSieve.Run | src/BaseSieve.cpp:46-50 | run() leaves the small-prime list and the array sieved with it, and then a first-quadrant point off the imaginary axis of norm 2 to maxNorm is on exactly when it is a Gaussian prime: every such composite is off |
| QuadrantSieve.QuadrantSieve.CrossOffMultiples | src/QuadrantSieve.cpp:41-62 | crossOffMultiples(g) leaves the array as the reference CrossOff: unchanged when g's cell is false, else the multiples cleared and g's cell re-marked |
| QuadrantSieve.QuadrantSieve.SweepMultiples | src/QuadrantSieve.cpp:45-57 | the c loop clears exactly the cells struck by the swept cofactors |
| QuadrantSieve.QuadrantSieve.ColumnTop | src/QuadrantSieve.cpp:48 | the d loop bound is isqrt(maxNorm / N(g) - c^2) |
| QuadrantSieve.QuadrantSieve.SweepColumn | src/QuadrantSieve.cpp:46-56 | the d loop of column c strikes the cofactors c + 0i .. c + dUpper i |
| QuadrantSieve.QuadrantSieve.SetBigPrimes | src/QuadrantSieve.cpp:65-80 | setBigPrimes appends the harvest of the array |
| QuadrantSieve.QuadrantSieve.GetCountBigPrimes | src/QuadrantSieve.cpp:82-100 | getCountBigPrimes returns four times the length of the harvest, one per quadrant |
| QuadrantSieve.QuadrantSieve.GetBigPrimes | src/BaseSieve.cpp:52-62 | getBigPrimes returns the big primes sorted, a permutation of the old list plus the harvest |
| BlockSieve.InitialBlock | src/BlockSieve.cpp:29-46 | the allocated block has dx columns of dy cells |
| BlockSieve.Remark | src/BlockSieve.cpp:94-101 | setting a cell back to true keeps the block's shape |
| BlockSieve.CrossOff | src/BlockSieve.cpp:55-102 | the block after crossOffMultiples(g) keeps its shape |
| BlockSieve.StruckStart | src/BlockSieve.cpp:64-70 | no multiple of g in the window has a cofactor in a column before the ceiling start of the c loop |
| BlockSieve.CofactorInRange | src/BlockSieve.cpp:48-54 | every multiple of g in the window has its cofactor c + di with c between the c bounds and d between the d bounds of column c |
| BlockSieve.ColumnStart | src/BlockSieve.cpp:72-85 | no multiple of g in the window has a cofactor in column c below the d loop's start |
| BlockSieve.ColumnEnd | src/BlockSieve.cpp:72-92 | every multiple of g in the window with cofactor in column c is reached by the time d passes dUpper |
| BlockSieve.SweepEnd | src/BlockSieve.cpp:71-93 | once c passes cUpper every multiple of g in the window is cleared |
| BlockSieve.StruckStep | src/BlockSieve.cpp:86-91 | each product g (c + di) the d loop visits lies in the window, and the step clears exactly its cell |
| BlockSieve.CrossOffRemark | src/BlockSieve.cpp:94-101 | the c loop followed by the two re-markings of g and its flip gives the reference CrossOff |
| BlockSieve.SmallNorm | include/BaseSieve.hpp:13 | the Gaussian integers of norm at most 1 are 0 and the four units |
| BlockSieve.CrossOffSound | src/BlockSieve.cpp:55-102 | a cell that crossOffMultiples(g) turns off holds g h with h = 0 or N(h) >= 2 |
| BlockSieve.CrossOffClearsComposites | src/BlockSieve.cpp:55-102 | for g of norm at least 2, a cell turned off holds 0 or a composite |
| BlockSieve.CrossOffComplete | src/BlockSieve.cpp:55-102 | every product g h in the window with h = 0 or a non-unit is off after crossOffMultiples(g) |
| BlockSieve.ProductNorm | src/BlockSieve.cpp:94-101 | g h with h = 0 or a non-unit has a norm other than N(g), so it is neither g nor its flip |
| BlockSieve.CrossOffOnlyRemarks | src/BlockSieve.cpp:94-101 | a cell that crossOffMultiples(g) turns on holds g or its flip |
| BlockSieve.SieveWith | src/BaseSieve.cpp:19-33 | sieving keeps the block's shape |
| BlockSieve.PrimesSweepTail | src/BaseSieve.cpp:24-26 | after the first small prime the rest of the list still meets the sweep's conditions |
| BlockSieve.KeepsPrime | src/BlockSieve.cpp:55-102 | one crossOffMultiples with g of norm at least 2 keeps a Gaussian prime's cell on |
| BlockSieve.SieveWithKeepsPrimes | src/BaseSieve.cpp:19-33 | no Gaussian prime of the window that is on is ever turned off by the sieve |
| BlockSieve.SieveWithClearsMultiples | src/BaseSieve.cpp:19-33 | every product ps[k] h in the window with h a non-unit ends off, unless it is a listed prime or the flip of one |
| BlockSieve.StaysOff | src/BlockSieve.cpp:94-101 | a cell that is off stays off through sweeps none of whose primes or flips is its point |
| BlockSieve.StaysOn | src/BlockSieve.cpp:86-92 | a cell that is on stays on through sweeps none of whose primes divides its point |
| BlockSieve.WrittenMaxNormKeepsNine | src/BlockSieve.cpp:10 | with maxNorm written as (x + dx - 1)(y + dy - 1), the window [0, 10) x [0, 2) gets maxNorm 9, small primes of norm at most 3, and the composite 9 = 3 * 3 stays on after the sieve |
| BlockSieve.NineComposite | src/BlockSieve.cpp:29-42 | 9 lies in the window [0, 10) x [0, 2), is composite and starts on |
| BlockSieve.ProductComposite | include/BaseSieve.hpp:9-33 | g h is composite when both are non-units |
| BlockSieve.NoneDividesNine | src/BlockSieve.cpp:18-25 | no small prime of norm at most 3 divides 9 |
| BlockSieve.OnlyOnePlusI | src/BlockSieve.cpp:18-25 | the only candidate small prime of norm 2 or 3 is 1 + i, which does not divide 9 |
| BlockSieve.ColumnHarvestMembers | src/BlockSieve.cpp:110-115 | the inner harvest loop of column i yields exactly the points of that column whose cell is true, in scan order |
| BlockSieve.HarvestPrefixMembers | src/BlockSieve.cpp:109-116 | the first n columns of the harvest hold exactly the on points with a < x + n, in scan order |
| BlockSieve.HarvestPrefixHas | src/BlockSieve.cpp:109-116 | membership half of the same statement |
| BlockSieve.HarvestPrefixOrdered | src/BlockSieve.cpp:109-116 | order half of the same statement |
| BlockSieve.HarvestMembers | src/BlockSieve.cpp:105-120 | setBigPrimes collects exactly the points whose cell is true, each once, in scan order |
| BlockSieve.PrimesHarvested | src/BlockSieve.cpp:105-120 | after a full run every Gaussian prime of the window is in the harvest |
| BlockSieve.MultiplesNotHarvested | src/BlockSieve.cpp:105-120 | the composite multiples the sweeps reach are not in the harvest |
| BlockSieve.SmallPrimesSweep | src/BlockSieve.cpp:22-24 | the octant sieve's output, in any order, is a valid list of small primes for the block |
| BlockSieve.RunKeepsPrimes | src/BaseSieve.cpp:46-50 | a run from the initial block keeps every Gaussian prime of the window on |
| BlockSieve.InitialOn | src/BlockSieve.cpp:33-42 | every point of the window other than 1 and i starts on |
| BlockSieve.SmallPrimeSweeps | src/BlockSieve.cpp:22-24 | every point of the octant sieve's output lies in the first quadrant off the imaginary axis and has norm at least 2 |
| BlockSieve.CompositesCleared | src/BlockSieve.cpp:55-102 | when the small primes are all Gaussian primes up to isqrt(MaxNorm), every composite of the window ends off |
| BlockSieve.RunExact | src/BaseSieve.cpp:46-50 | with those small primes a window point of norm at least 2 ends on exactly when it is a Gaussian prime |
| BlockSieve.LowNormOff | src/BlockSieve.cpp:94-101 | 0 and the units end off once any sweep has run |
| BlockSieve.HarvestIsPrimes | src/BlockSieve.cpp:105-120 | setBigPrimes collects no point twice, and exactly the Gaussian primes of the window |
| BlockSieve.BlockSieve.constructor | src/BlockSieve.cpp:8-15 | a new block sieve stores its window and empty lists and array; maxNorm is the norm of the far corner (the corrected value of line 10, finding 3) |
| BlockSieve.BlockSieve.SetSmallPrimes | src/BlockSieve.cpp:18-25 | setSmallPrimes stores the octant sieve's primes for radius isqrt(maxNorm), sorted |
| BlockSieve.BlockSieve.SetSieveArray | src/BlockSieve.cpp:29-46 | setSieveArray allocates dx columns of dy true cells, then clears 1 and i when they are in the window |
| BlockSieve.BlockSieve.CrossOffMultiples | src/BlockSieve.cpp:55-102 | crossOffMultiples(g) leaves the block as the reference CrossOff |
| BlockSieve.BlockSieve.Remark1 | src/BlockSieve.cpp:94-101 | one re-marking sets p's cell true when p is in the window and changes nothing else |
| BlockSieve.BlockSieve.SweepMultiples | src/BlockSieve.cpp:64-93 | the c loop clears every multiple of g in the window and nothing else |
| BlockSieve.BlockSieve.SweepColumn | src/BlockSieve.cpp:72-92 | the d loop of column c clears the multiples whose cofactor lies in column c |
| BlockSieve.BlockSieve.Sieve | src/BaseSieve.cpp:19-33 | sieve() crosses off the multiples of each small prime in list order |
| BlockSieve.BlockSieve.Run | src/BaseSieve.cpp:46-50 | run() leaves the sorted octant-sieve primes for isqrt(maxNorm) and the block sieved with them; when maxNorm covers the window (as the constructor sets it) a window point of norm at least 2 is on exactly when it is a Gaussian prime |
| BlockSieve.BlockSieve.SetBigPrimes | src/BlockSieve.cpp:105-120 | setBigPrimes appends the point of every true cell, column by column |
| BlockSieve.BlockSieve.GetCountBigPrimes | src/BlockSieve.cpp:122-138 | getCountBigPrimes returns the number of true cells, the length of the harvest |
| BlockSieve.BlockSieve.GetBigPrimes | src/BaseSieve.cpp:52-62 | getBigPrimes returns the big primes sorted, a permutation of the old list plus the harvest |
| BlockDonutSieve.SameShapeShaped | src/BlockDonutSieve.cpp:74-76 | an array of the same shape as a well-shaped array is well shaped |
| BlockDonutSieve.DivBelow | src/BlockDonutSieve.cpp:85 | for n a multiple of 10, u / 10 < n / 10 exactly when u < n |
| BlockDonutSieve.StoredMeans | src/BlockDonutSieve.cpp:74-76 | a relative position has a bit in the array exactly when its point lies in the window and is coprime to 10 |
| BlockDonutSieve.StoredPoint | src/BlockDonutSieve.cpp:182-188 | every point of the window coprime to 10 has a bit, at its relative position |
| BlockDonutSieve.FullBlock | src/BlockDonutSieve.cpp:85-89 | dx / 10 columns of dy / 10 all-ones words form a well-shaped array |
| BlockDonutSieve.OriginWord | src/BlockDonutSieve.cpp:90-94 | at the origin, 1 and i have bits, so the two setFalse calls are in bounds |
| BlockDonutSieve.InitialWords | src/BlockDonutSieve.cpp:77-99 | the allocated array is well shaped |
| BlockDonutSieve.InitialBits | src/BlockDonutSieve.cpp:77-99 | after setSieveArray every stored point is on except 1 and i |
| BlockDonutSieve.InitialAgree | src/BlockDonutSieve.cpp:77-99 | the donut array and the plain block array start in agreement on every point coprime to 10 |
| BlockDonutSieve.CoprimeDivisor | src/BlockDonutSieve.cpp:150-158 | a divisor of a point coprime to 10, and its cofactor, are coprime to 10, so skipping cofactors that are not loses no multiple |
| BlockDonutSieve.SweepAgrees | src/BlockDonutSieve.cpp:108-180 | one crossOffMultiples of the donut sieve and the same call of the plain block sieve keep the two arrays in agreement (for N(g) <= 5 the donut skips the call and the block sieve changes no coprime point) |
| BlockDonutSieve.SweepAgreesAt | src/BlockDonutSieve.cpp:108-180 | the same, for one stored point |
| BlockDonutSieve.CrossOffCell | src/BlockSieve.cpp:55-102 | after the plain block sieve's crossOffMultiples(g) a point is on exactly when it is g, its flip, or was on and is not a multiple of g |
| BlockDonutSieve.StruckStart | src/BlockDonutSieve.cpp:121-131 | no multiple in the window has its cofactor in a column before the c loop's start |
| BlockDonutSieve.ColumnStart | src/BlockDonutSieve.cpp:134-149 | no multiple in the window has a cofactor in column c below the d loop's start |
| BlockDonutSieve.StruckSkip | src/BlockDonutSieve.cpp:154-158 | skipping cofactors that share a factor with 10 strikes nothing |
| BlockDonutSieve.StruckClear | src/BlockDonutSieve.cpp:159-163 | sweeping a cofactor c + di coprime to 10 and in range clears exactly the bit of g (c + di), which lies in the window and is stored |
| BlockDonutSieve.Jump | src/BlockDonutSieve.cpp:164-167 | d += gapDonut[c % 10][d % 10] lands on the next cofactor coprime to 10 and skips only cofactors that strike nothing |
| BlockDonutSieve.ColumnEnd | src/BlockDonutSieve.cpp:161-168 | once d passes dUpper every multiple with cofactor in column c has been cleared |
| BlockDonutSieve.SweepEnd | src/BlockDonutSieve.cpp:131-169 | once c passes cUpper every multiple of g in the window is cleared |
| BlockDonutSieve.CoprimeAhead | src/BlockDonutSieve.cpp:154-158 | within ten steps of any d there is a d' with c + d'i coprime to 10, so the start loop ends |
| BlockDonutSieve.FirstCoprime | src/BlockDonutSieve.cpp:152-158 | the start loop advances d to the first d' >= d with c + d'i coprime to 10 |
| BlockDonutSieve.GapZero | src/BlockDonutSieve.cpp:29-38 | gapDonut[c % 10][d % 10] is zero exactly when c + di shares a factor with 10 |
| BlockDonutSieve.Remark | src/BlockDonutSieve.cpp:170-179 | re-marking a point keeps the array well shaped |
| BlockDonutSieve.RemarkAt | src/BlockDonutSieve.cpp:190-196 | setTrue on p turns on p's bit and changes no other bit |
| BlockDonutSieve.RemarkSwept | src/BlockDonutSieve.cpp:170-179 | the c loop followed by the re-marking of g and of its flip has the effect specified for crossOffMultiples |
| BlockDonutSieve.WordHarvestStep | src/BlockDonutSieve.cpp:217-225 | scanning one more bit of a word adds its point when the bit is set |
| BlockDonutSieve.BitPointAt | src/BlockDonutSieve.cpp:221-222 | the point of bit n of word (A, B) is x + 10A + realPartDecompress[n] + (y + 10B + imagPartDecompress[n]) i |
| BlockDonutSieve.BitPointIdent | src/BlockDonutSieve.cpp:182-196 | bit k of word (A, B) holds p exactly when p's relative position is coprime to 10, lies in that word and has bit number k |
| BlockDonutSieve.BelowStep | src/BlockDonutSieve.cpp:217 | bit k is below n exactly when it is below n - 1 or is n - 1 |
| BlockDonutSieve.WordHarvestMembers | src/BlockDonutSieve.cpp:217-225 | bits 0 .. n - 1 of word (A, B) yield p exactly when p's bit is among them and set |
| BlockDonutSieve.Below32 | src/BlockDonutSieve.cpp:217 | every bit number is below 32 |
| BlockDonutSieve.ColumnHarvestMembers | src/BlockDonutSieve.cpp:215-226 | the first n words of column A yield p exactly when p's bit lies in one of them and is set |
| BlockDonutSieve.ScanMembers | src/BlockDonutSieve.cpp:213-227 | the first n columns yield exactly the points whose bit is on and whose column is below n |
| BlockDonutSieve.HarvestMembers | src/BlockDonutSieve.cpp:199-232 | setBigPrimes collects 1 + i, 2 + i and 1 + 2i when the window starts at the origin, and otherwise exactly the points of the window coprime to 10 whose bit is on |
| BlockDonutSieve.TraceKeepsOneOff | src/OctantDonutSieve.cpp:94-158 | 1 stays off through the octant donut sieve: its sweeps only set cells of norm above 5 |
| BlockDonutSieve.SievedOneOff | src/OctantDonutSieve.cpp:94-158 | 1 is off in every array the octant donut sieve reaches |
| BlockDonutSieve.OctantUnit | include/BaseSieve.hpp:13 | the only octant point of norm 1 is 1 |
| BlockDonutSieve.DonutPrimeSweeps | src/BlockDonutSieve.cpp:69-71 | every point of the octant donut sieve's output can be swept by the block and has norm at least 2 |
| BlockDonutSieve.DonutSmallPrimes | src/BlockDonutSieve.cpp:69-71 | the octant donut sieve of radius m hands the block sievable points, 1 + i, 2 + i and 1 + 2i, and every octant Gaussian prime of norm 2 .. m with its flip |
| BlockDonutSieve.FlipClass | include/BaseSieve.hpp:15 | a point is in the same class as p when its flip is |
| BlockDonutSieve.FlipComposite | include/BaseSieve.hpp:15 | the flip of a composite is composite |
| BlockDonutSieve.TinyPrime | src/BlockDonutSieve.cpp:205-211 | 1 + i, 2 + i and 1 + 2i are Gaussian primes |
| BlockDonutSieve.ZeroOff | src/BlockSieve.cpp:55-102 | 0 is off in the plain block sieve once a sweep has run |
| BlockDonutSieve.UnitProducts | include/BaseSieve.hpp:9-33 | multiplying by 1, -1, i and -i gives q, -q, iq and -iq |
| BlockDonutSieve.MultipleOff | src/BlockSieve.cpp:55-102 | a multiple of a small prime by a non-unit is off after the plain block sieve |
| BlockDonutSieve.TinyDivisor | src/BlockDonutSieve.cpp:205-211 | a point that shares a factor with 10 is divisible by one of 1 + i, 2 + i and 1 + 2i |
| BlockDonutSieve.SharedOff | src/BlockDonutSieve.cpp:205-211 | a point of the window that shares a factor with 10 is off after the plain block sieve, unless it is 1 + i, 2 + i or 1 + 2i in a window at the origin |
| BlockDonutSieve.TinyIndex | src/BlockDonutSieve.cpp:69-71 | 1 + i, 2 + i and 1 + 2i have an index in the small-prime list |
| BlockDonutSieve.SmallShared | src/BlockDonutSieve.cpp:205-211 | a multiple of 1 + i, 2 + i or 1 + 2i by 0 or a unit that is not one of the three at the origin is off |
| BlockDonutSieve.UnitCofactor | src/BlockDonutSieve.cpp:205-211 | a point of a window with corner a multiple of 10 that is 1 + i, 2 + i or 1 + 2i times a unit is that prime, in a window at the origin |
| BlockDonutSieve.SmallCofactor | src/BlockDonutSieve.cpp:205-211 | 1 + i, 2 + i or 1 + 2i times 0 or a unit, in the window, is 0 or the prime itself at the origin |
| BlockDonutSieve.TinyCases | src/BlockDonutSieve.cpp:208-210 | the three primes dividing 10 have coordinates 1 or 2 |
| BlockDonutSieve.MulZero | include/BaseSieve.hpp:9-33 | q times 0 is 0 |
| BlockDonutSieve.TenthZero | src/BlockDonutSieve.cpp:55 | a multiple of 10 below 10 is 0 |
| BlockDonutSieve.TinyOn | src/BlockSieve.cpp:94-101 | 1 + i, 2 + i and 1 + 2i stay on in a plain block at the origin |
| BlockDonutSieve.HarvestsAgree | src/BlockDonutSieve.cpp:199-232 | with the same small primes, setBigPrimes of the donut block and of the plain block collect the same points |
| BlockDonutSieve.RunKeepsPrimes | src/BaseSieve.cpp:46-50 | after a run every Gaussian prime of the window coprime to 10 has its bit set |
| BlockDonutSieve.DonutSmallPrimesAll | src/BlockDonutSieve.cpp:69-71 | any ordering of the octant donut harvest of radius m holds Gaussian primes only and every one with a > 0, b >= 0 and norm 2 to m |
| BlockDonutSieve.RunExact | src/BaseSieve.cpp:46-50 | with all Gaussian primes up to isqrt(MaxNorm) as small primes, a window point coprime to 10 of norm at least 2 ends on exactly when it is a Gaussian prime |
| BlockDonutSieve.HarvestDistinct | src/BlockDonutSieve.cpp:199-232 | setBigPrimes lists no point twice |
| BlockDonutSieve.HarvestPointAgrees | src/BlockDonutSieve.cpp:199-232 | both the plain and the donut block harvests hold exactly the Gaussian primes of the window |
| BlockDonutSieve.SortedHarvestsAgree | src/test.cpp:46-86 | the sorted outputs of the plain and the donut block sieve of one window are the same list, the window's Gaussian primes |
| BlockDonutSieve.CompareBlockSieves | src/test.cpp:46-86 | both block sieves of the window, run and harvested, give equal sorted lists, which hold exactly the Gaussian primes of the window of norm at least 2 |
| BlockDonutSieve.PlainBlockPrimes | src/test.cpp:58-61 | a block sieve of the window, run and harvested, returns a sorted list with the same elements as its setBigPrimes output, after sieving with exactly the Gaussian primes up to isqrt of the window's largest norm |
| BlockDonutSieve.DonutBlockPrimes | src/test.cpp:65-68 | a block donut sieve of the window, run and harvested, returns a sorted list with the same elements as its setBigPrimes output; its words agree with a block sieve run on its own small primes, which are exactly the Gaussian primes up to isqrt of the largest norm |
| BlockDonutSieve.SortedListsAgree | src/test.cpp:83-85 | two sorted harvests of one window, from the plain and the donut block sieve, are equal and hold exactly the window's Gaussian primes of norm at least 2 |
| BlockDonutSieve.BlockDonutSieve.constructor | src/BlockDonutSieve.cpp:13-20 | a new sieve stores its window, empty lists and array, and maxNorm (x + dx - 1)^2 + (y + dy - 1)^2 |
| BlockDonutSieve.BlockDonutSieve.Create | src/BlockDonutSieve.cpp:55-59 | a window whose corner or sides are not all multiples of 10 is refused; otherwise a fresh sieve as the constructor makes it |
| BlockDonutSieve.BlockDonutSieve.SetSieveArray | src/BlockDonutSieve.cpp:77-99 | setSieveArray allocates dx / 10 columns of dy / 10 all-ones words, then clears 1 and i at the origin |
| BlockDonutSieve.BlockDonutSieve.SetFalse | src/BlockDonutSieve.cpp:182-188 | setFalse(u, v) clears the bit of u + vi and nothing else |
| BlockDonutSieve.BlockDonutSieve.SetTrue | src/BlockDonutSieve.cpp:190-196 | setTrue(u, v) sets the bit of u + vi and nothing else |
| BlockDonutSieve.BlockDonutSieve.CrossOffMultiples | src/BlockDonutSieve.cpp:108-180 | crossOffMultiples(g) changes nothing for N(g) <= 5 and otherwise clears every multiple of g in the window and re-marks g and its flip |
| BlockDonutSieve.BlockDonutSieve.RemarkPoint | src/BlockDonutSieve.cpp:170-179 | one re-marking sets p's bit when p lies in the window |
| BlockDonutSieve.BlockDonutSieve.SweepMultiples | src/BlockDonutSieve.cpp:131-169 | the c loop clears every multiple of g in the window and nothing else |
| BlockDonutSieve.BlockDonutSieve.StrikeProduct | src/BlockDonutSieve.cpp:163 | one pass of the d loop clears the bit of g (c + di) |
| BlockDonutSieve.BlockDonutSieve.SweepColumn | src/BlockDonutSieve.cpp:133-168 | the start loop and the jumping d loop of column c clear exactly the multiples whose cofactor lies in column c |
| BlockDonutSieve.BlockDonutSieve.SetSmallPrimes | src/BlockDonutSieve.cpp:63-72 | setSmallPrimes stores the octant donut sieve's primes for radius isqrt(maxNorm), sorted: sievable points including 1 + i, 2 + i and 1 + 2i, Gaussian primes only, and every Gaussian prime a + bi with a > 0, b >= 0 up to that norm |
| BlockDonutSieve.BlockDonutSieve.DonutPrimes | src/BlockDonutSieve.cpp:69-71 | the octant donut sieve of radius m, run and harvested, returns such a list: Gaussian primes only, and all of them with a > 0, b >= 0 and norm 2 to m |
| BlockDonutSieve.BlockDonutSieve.Sieve | src/BaseSieve.cpp:19-33 | sieve() keeps the words in agreement with the plain block sieve run on the same small primes |
| BlockDonutSieve.BlockDonutSieve.Run | src/BaseSieve.cpp:46-50 | run() leaves the sorted octant donut primes, which are all the Gaussian primes to isqrt(maxNorm), and words agreeing with the plain block sieve run on them; when maxNorm covers the window a window point coprime to 10 of norm at least 2 is on exactly when it is a Gaussian prime |
| BlockDonutSieve.BlockDonutSieve.WordPrimes | src/BlockDonutSieve.cpp:217-225 | the bit loop yields the point of each set bit, in bit order |
| BlockDonutSieve.BlockDonutSieve.SetBigPrimes | src/BlockDonutSieve.cpp:199-232 | setBigPrimes appends 1 + i, 2 + i and 1 + 2i at the origin, then the point of every set bit, word by word |
| BlockDonutSieve.BlockDonutSieve.ColumnPrimes | src/BlockDonutSieve.cpp:215-226 | the b loop yields the points of the words of column a from the bottom up |
| BlockDonutSieve.BlockDonutSieve.WordCount | src/BlockDonutSieve.cpp:250-256 | the bit loop counts the points of a word |
| BlockDonutSieve.BlockDonutSieve.ColumnCount | src/BlockDonutSieve.cpp:248-257 | the b loop counts the points of column a |
| BlockDonutSieve.BlockDonutSieve.GetCountBigPrimes | src/BlockDonutSieve.cpp:234-265 | getCountBigPrimes returns the length of the harvest: 3 at the origin plus the number of set bits |
| BlockDonutSieve.BlockDonutSieve.GetBigPrimes | src/BaseSieve.cpp:52-62 | getBigPrimes returns the big primes sorted, a permutation of the old list plus the harvest |
| OctantMoat.EndMeans | src/OctantMoat.cpp:45-46 | an integer u is below the real jump size exactly when it is below End(js), where the loops `u < jumpSize` stop |
| OctantMoat.RowToMembers | src/OctantMoat.cpp:46-53 | the inner loop up to v lists exactly the admitted steps (u, w) with -int(js) <= w < v |
| OctantMoat.RowsToMembers | src/OctantMoat.cpp:45-54 | the outer loop up to u lists exactly the admitted steps of rows -int(js) .. u - 1 |
| OctantMoat.NeighborsMembers | src/OctantMoat.cpp:44-55 | the steps are exactly the admitted (u, v) with -int(js) <= u, v < js |
| OctantMoat.SquareBound | src/OctantMoat.cpp:50 | u^2 <= js^2 bounds |u| by js |
| OctantMoat.SquaresOrdered | src/OctantMoat.cpp:50 | for non-negative reals, x^2 <= y^2 gives x <= y |
| OctantMoat.PositiveProduct | src/OctantMoat.cpp:50 | a product of positive reals is positive |
| OctantMoat.FloorBound | src/OctantMoat.cpp:45-46 | a natural number at most js is at most its floor |
| OctantMoat.NeighborsExact | src/OctantMoat.cpp:44-55 | when the tolerant jump size is not a whole number the loop bounds cut nothing off: the steps are exactly the non-zero (u, v) with |u| and |v| of one parity and u^2 + v^2 <= js^2 |
| OctantMoat.NeighborsSymmetric | src/OctantMoat.cpp:44-55 | for such a jump size -q is a step whenever q is |
| OctantMoat.NeighborsLopsided | src/OctantMoat.cpp:45-46 | at a whole jump size the loops keep the negative extreme and drop the positive one: at 2, -2 is a step and 2 is not |
| OctantMoat.StepKeepsParity | src/OctantMoat.cpp:47-50 | a step keeps the parity of a + b, so from an odd prime the search never reaches 1 + i |
| OctantMoat.NeighborParity | src/OctantMoat.cpp:50 | both coordinates of a step have the same parity |
| OctantMoat.SameParitySum | src/OctantMoat.cpp:48-50 | |u| and |v| of one parity make u + v even |
| OctantMoat.AbsParity | src/OctantMoat.cpp:49 | |n| and n have the same parity |
| OctantMoat.EvenShift | src/OctantMoat.cpp:87 | adding an even number keeps the parity |
| OctantMoat.Clear | src/OctantMoat.cpp:92 | clearing one cell keeps the array's shape |
| OctantMoat.ClearCells | src/OctantMoat.cpp:92 | sieveArray[g.a][g.b] = false turns off g's cell and no other |
| OctantMoat.SetCellsMeans | src/OctantMoat.cpp:90 | the set of true cells holds exactly the points whose cell is true |
| OctantMoat.ClearShrinks | src/OctantMoat.cpp:92 | clearing a true cell removes exactly that point from the true cells, so the search ends |
| OctantMoat.PushKeeps | src/OctantMoat.cpp:90-94 | pushing a true octant neighbour within the bound appends it to the component and the stack and clears its cell, keeping the search state |
| OctantMoat.PopKeeps | src/OctantMoat.cpp:84-85 | popping the last point keeps the search state; the popped point is a member no longer on the stack |
| OctantMoat.CloseP | src/OctantMoat.cpp:86-103 | once every neighbour of p is dealt with, p is closed |
| OctantMoat.Visit | src/OctantMoat.cpp:86-103 | the neighbour loop of a popped point pushes each true octant neighbour within the bound, keeps the state, shrinks the true cells by what it pushes, and, unless it escaped, leaves the point closed; it escapes only from the origin past the bound |
| OctantMoat.Search | src/OctantMoat.cpp:83-113 | the stack loop ends with an empty stack; unless it escaped every member other than 1 + i from the origin is closed; it escapes only from the origin, through a member and a step past the bound |
| OctantMoat.Seed | src/OctantMoat.cpp:59-80 | a prime start is the component and the stack; from the origin with js > sqrt(2), 1 + i and 2 + i are the component and 2 + i the stack; their cells are cleared |
| OctantMoat.MemberPath | src/OctantMoat.cpp:83-113 | every member is reached from a seed by a walk of steps over true cells through members |
| OctantMoat.StepInComponent | src/OctantMoat.cpp:86-94 | after the search, one step from a member other than 1 + i from the origin onto a true octant cell within the bound lands in the component |
| OctantMoat.PathPrefixIn | src/OctantMoat.cpp:83-113 | every point of a walk over true cells from a member, avoiding 1 + i from the origin, is a member up to position n |
| OctantMoat.PathInComponent | src/OctantMoat.cpp:83-113 | a finished search leaves nothing reachable outside the component: such a walk stays in it |
| OctantMoat.FlattenAppend | src/OctantMoat.cpp:153 | appending a component appends its points to the points of all components |
| OctantMoat.DistinctConcat | src/OctantMoat.cpp:153 | two lists without repeats and without common points concatenate without repeats |
| OctantMoat.PartitionStep | src/OctantMoat.cpp:151-154 | clearing one more component, all of whose points were true, extends the partition of the cleared cells |
| OctantMoat.MembersWereSet | src/OctantMoat.cpp:65-68 | a search from a true cell starts its component with that cell and only collects cells that were true |
| OctantMoat.DistinctCard | src/OctantMoat.cpp:117-119 | a list without repeats has as many elements as distinct points |
| OctantMoat.CellMeans | src/OctantMoat.cpp:90 | every cell of the array is an octant point within the bound |
| OctantMoat.SievedCells | src/OctantMoat.cpp:37-39 | the true cells of the sieved octant array are octant points of norm 2 .. normBound |
| OctantMoat.LessAfterLessEq | include/BaseSieve.hpp:17-26 | x <= y < z gives x < z, the step max_element relies on |
| OctantMoat.NormBoundFor | src/OctantMoat.cpp:17-34 | the table gives a norm bound, at least 3000, exactly for jump sizes below 5 |
| OctantMoat.NormBoundMonotone | src/OctantMoat.cpp:17-34 | a larger jump size never gets a smaller norm bound |
| OctantMoat.AdmittedRow | src/OctantMoat.cpp:46-53 | the inner loop lists the admitted steps of row u |
| OctantMoat.AdmittedSteps | src/OctantMoat.cpp:44-55 | the outer loop lists the admitted steps row by row, the reference neighbour list |
| OctantMoat.ComponentStep | src/OctantMoat.cpp:151-154 | exploring one more true cell extends the list of components and the partition, and only turns cells off |
| OctantMoat.OctantMoat.constructor | src/OctantMoat.cpp:9-41 | a new explorer has the tolerant jump size, the table's norm bound, the octant sieve's array for that bound and the neighbour list, and no components |
| OctantMoat.OctantMoat.SieveOctant | src/OctantMoat.cpp:37-39 | the octant sieve run to the bound gives a shaped array whose true cells are octant points of norm 2 .. bound |
| OctantMoat.OctantMoat.Create | src/OctantMoat.cpp:28-34 | the constructor exits exactly for jump sizes of 5 or more; otherwise a fresh explorer as above |
| OctantMoat.OctantMoat.SetNearestNeighbors | src/OctantMoat.cpp:44-55 | setNearestNeighbors appends the reference neighbour list |
| OctantMoat.OctantMoat.ExploreComponent | src/OctantMoat.cpp:58-115 | the component is the seeds followed by true cells each a step from an earlier member, without repeats, within the octant and the bound, and exactly those cells are cleared; unless it escaped, it is closed under steps; it escapes only from the origin, through a step past the bound |
| OctantMoat.OctantMoat.GetComponentSize | src/OctantMoat.cpp:117-119 | the size is the number of members, which are distinct |
| OctantMoat.OctantMoat.GetComponentMaxElement | src/OctantMoat.cpp:121-123 | the result is a member that no member exceeds under <, and the first such |
| OctantMoat.OctantMoat.ExploreAllComponents | src/OctantMoat.cpp:148-157 | afterwards no cell is true, and the new components are non-empty, disjoint and partition the cells that were true |
| OctantMoat.OctantMoat.ExploreColumn | src/OctantMoat.cpp:150-155 | the inner loop over column u leaves no true cell in columns up to u and extends the partition |
| SegmentedStatics.StripMeans | src/SegmentedMoat.cpp:153 | column a is in the left strip exactly when a < jumpSize - 1 |
| SegmentedStatics.CutMeans | src/SegmentedMoat.cpp:234 | column a is in the right strip exactly when a >= floor(dx - jumpSize + 1), that is a + jumpSize > dx |
| SegmentedStatics.CutStrip | src/SegmentedMoat.cpp:306-311 | the right strip is as wide as the left one, so shifting by the cut lands the right boundary on the left strip |
| SegmentedStatics.StripBounds | src/SegmentedMoat.cpp:58-64 | for an accepted jump size the strip has 3 to 5 columns, and floor(jumpSize) is the strip width or one more |
| SegmentedStatics.StripsApart | src/SegmentedMoat.cpp:147-150 | when 2 jumpSize <= dx the two strips do not overlap |
| SegmentedStatics.SeedsFit | src/SegmentedMoat.cpp:100-119 | for an accepted jump size every seed lies in the first block's strip and below its lookup height floor(jumpSize) |
| SegmentedStatics.ThreeAdmitted | src/SegmentedMoat.cpp:55-64 | the input 2.999 becomes the jump size 3.0, which the exit tests let through although it is not accepted; its strip has 2 columns and the seed 2 + i lies outside it |
| SegmentedStatics.AcceptedAlmostAsWritten | src/SegmentedMoat.cpp:58-64 | the corrected test and the written one differ at the jump size 3 alone |
| SegmentedStatics.BlockSizeFor | src/SegmentedMoat.cpp:69-77 | the block size is at least 10^6 |
| SegmentedStatics.BlockSizeMonotone | src/SegmentedMoat.cpp:69-77 | a larger jump size never gets a smaller block |
| SegmentedStatics.DxMeans | src/SegmentedMoat.cpp:329-334 | dx is the largest width whose block dx (x + dx) has area at most blockSize |
| SegmentedStatics.DxVanishes | src/SegmentedMoat.cpp:333 | past x = blockSize the width is 0 |
| SegmentedStatics.BlockWidth | src/SegmentedMoat.cpp:333 | the computed width is that largest width |
| SegmentedStatics.Shift | src/SegmentedMoat.cpp:308-310 | shifting a component keeps its length |
| SegmentedStatics.ShiftMeans | src/SegmentedMoat.cpp:308-310 | shifting moves each point of a component left by the cut, in place |
| SegmentedStatics.Shifted | src/SegmentedMoat.cpp:306-311 | shifting a boundary keeps its number of components |
| SegmentedStatics.ShiftedMeans | src/SegmentedMoat.cpp:306-311 | component i of the shifted boundary is component i shifted |
| SegmentedStatics.ShiftedFits | src/SegmentedMoat.cpp:306-311 | a right boundary in columns cut .. dx - 1, shifted, lies in the next block's strip |
| SegmentedStatics.ShiftBoundary | src/SegmentedMoat.cpp:306-311 | the shift loops return every component with every point moved left by the cut |
| SegmentedStatics.OwnerMeans | src/SegmentedMoat.cpp:157-160 | the lookup id of a point is the last component holding it, and 0 when none does |
| SegmentedStatics.NormsUpToMeans | src/SegmentedMoat.cpp:180-185 | the filter keeps exactly the primes of norm at most m, in their order |
| SegmentedStatics.SeedsReady | src/SegmentedMoat.cpp:96-119 | the starting left boundary is ready for the first block: one component, inside the strip, with a size |
| SegmentedStatics.Statics.constructor | src/SegmentedMoat.cpp:36-44 | the statics start zero and empty |
| SegmentedStatics.Statics.SetSievingPrimes | src/SegmentedMoat.cpp:123-130 | the sieving primes are the octant donut sieve's primes up to the bound: sorted, sievable, and every octant Gaussian prime up to the bound with its flip |
| SegmentedStatics.Statics.SetStatics | src/SegmentedMoat.cpp:48-120 | the tolerant jump size is refused unless strictly between 3 and 6; otherwise block size, norm bound 10^4, sieving primes, steps, previousdy = floor(jumpSize), the seeded left boundary and its size are set |
| SegmentedStatics.Statics.GrowSievingPrimes | src/SegmentedMoat.cpp:171-178 | the doubling loop keeps the sieving primes valid, never lowers the bound, and succeeds exactly when the last prime reaches the root |
| SegmentedStatics.Statics.SetNearestNeighbors | src/SegmentedMoat.cpp:84-93 | the steps are the octant moat's neighbour list for the jump size |
| SegmentedStatics.Statics.ChooseBlockSize | src/SegmentedMoat.cpp:69-77 | the block size is the one of the jump size's range |
| SegmentedStatics.Statics.InitialComponent | src/SegmentedMoat.cpp:100-119 | the starting component is 2 + i and the strip primes the jump size adds, with size one larger for 1 + i |
| SegmentedStatics.FilterByNorm | src/SegmentedMoat.cpp:180-185 | the filter loop returns the sieving primes of norm at most maxNorm, in order |
| SegmentedStatics.EnoughPrimes | src/SegmentedMoat.cpp:172-185 | once the last sieving prime reaches isqrt(maxNorm), the filtered primes hold every octant Gaussian prime of norm up to isqrt(maxNorm) with its flip |
| SegmentedStatics.OwnerSnoc | src/SegmentedMoat.cpp:157-160 | labelling one more component gives its points its id and leaves the rest |
| SegmentedStatics.LabelComponent | src/SegmentedMoat.cpp:158-160 | the inner lookup loop gives each point of the component the id |prefix| and keeps the lookup's shape |
| SegmentedStatics.BuildLookUp | src/SegmentedMoat.cpp:152-164 | the lookup loops give every cell of the strip the id of the last component holding it, 0 when none does, and every id names a component |
| SegmentedExplore.SumUpdate | src/SegmentedMoat.cpp:217-218 | overwriting one component size with v changes the total of the sizes by v less the old size |
| SegmentedExplore.MergeCounts | src/SegmentedMoat.cpp:217-218 | moving componentSizes[index] into the count and zeroing it keeps count plus the total of the sizes |
| SegmentedExplore.OutMeans | src/SegmentedMoat.cpp:231-232 | a point is among the uncounted cells right of the strip exactly when its column is at least the strip width and its cell is still unvisited |
| SegmentedExplore.OutClear | src/SegmentedMoat.cpp:205 | marking a cell visited removes it from the uncounted cells right of the strip exactly when it lies there and was unvisited |
| SegmentedExplore.ClearSubset | src/SegmentedMoat.cpp:244 | marking a cell visited never adds an unvisited cell, and removes one exactly when that cell was unvisited |
| SegmentedExplore.PendingRelabel | src/SegmentedMoat.cpp:226 | relabelling lookup cells with the starting id never adds a merge still to come on the stack |
| SegmentedExplore.RelabelKeeps | src/SegmentedMoat.cpp:226 | writing the starting id into one lookup cell only relabels with the starting id, and that cell then carries it |
| SegmentedExplore.Absorb | src/SegmentedMoat.cpp:225-229 | the merge loop relabels every point of leftBoundary[index] with the starting id, pushes it and marks it visited; the layout and the tally are kept and no merge still to come is added |
| SegmentedExplore.Spread | src/SegmentedMoat.cpp:240-246 | the neighbour loop pushes and marks visited each step from p into the block's octant part whose cell is unvisited; afterwards no jump step from p reaches an unvisited octant cell, and the tally is kept |
| SegmentedExplore.Settle | src/SegmentedMoat.cpp:208-238 | popping p: a strip point with another id merges that component (its size moves into the count), a strip point with the starting id changes nothing, any other point is counted and, from column floor(dx - jumpSize + 1) on, appended to the right boundary with the flag set; the tally is conserved |
| SegmentedExplore.SettleMerge | src/SegmentedMoat.cpp:212-229 | popping a strip point whose id names another component absorbs that component and uses up one merge still to come |
| SegmentedExplore.Pop | src/SegmentedMoat.cpp:207-246 | one pass of the do-while loop keeps the layout, conserves count + sizes + stacked points right of the strip + uncounted unvisited cells, only relabels with the starting id, only marks cells visited, only extends the right boundary, and strictly lowers (unvisited cells, merges to come, stack height) |
| SegmentedExplore.FollowsTrans | src/SegmentedMoat.cpp:207-247 | the relation between loop states (relabel with start, sizes kept or merged, cells only visited, right boundary only extended) composes across passes |
| SegmentedExplore.Drain | src/SegmentedMoat.cpp:207-247 | the loop ends with an empty stack, the tally conserved, every pushed item popped, and no jump step from a popped point reaching an unvisited octant cell; every cell cleared during the loop is among the popped points |
| SegmentedExplore.ClearAll | src/SegmentedMoat.cpp:205 | marking the items visited keeps the array's shape |
| SegmentedExplore.ClearAllMeans | src/SegmentedMoat.cpp:205 | after marking the items visited a cell is unvisited exactly when it was unvisited and is not an item |
| SegmentedExplore.ClearAllSubset | src/SegmentedMoat.cpp:205 | marking items visited never adds an unvisited cell |
| SegmentedExplore.ClosedShrinks | src/SegmentedMoat.cpp:240-246 | once no jump step from the visited points reaches an unvisited cell, visiting more cells keeps it so |
| SegmentedExplore.StartScan | src/SegmentedMoat.cpp:196-205 | the starting stack with its items marked visited is laid out for the loop |
| SegmentedExplore.Explore | src/SegmentedMoat.cpp:205-247 | marking the items visited and draining the stack gives sizes (with the count added to the start) plus unvisited cells right of the strip equal to the old sizes plus the items right of the strip plus the unvisited cells right of the strip once the items are marked: no point is lost or counted twice; every cell cleared by the marking or the drain is among the visited points |
| SegmentedExplore.Settled | src/SegmentedMoat.cpp:250 | the count of new points is added to the starting id's size and every other size is kept |
| SegmentedExplore.SettledSum | src/SegmentedMoat.cpp:250 | adding the count to the starting size raises the total of the sizes by the count |
| SegmentedExplore.Step | src/SegmentedMoat.cpp:194-251 | an exploration from startingIndex, from the left component or from the right boundary (which is cleared first), conserves the total size plus the unvisited cells right of the strip, never shrinks the starting size, zeroes only merged ids (whose left points then carry the start id), keeps the other ids' right boundaries and flags, extends the start's right boundary (flag set exactly when it grew), visits every item, and leaves no jump step from a visited point to an unvisited octant cell; hence every point reachable by jump steps through true cells from the start items is visited |
| SegmentedExplore.StepExplored | src/SegmentedMoat.cpp:249-250 | storing the drained scan (sizes settled, right boundary and flag of the start written) is the exploration Step promises |
| SegmentedExplore.StepConsistent | src/SegmentedMoat.cpp:249-250 | the stored tables agree: lookup ids name sizes, one right boundary and flag per id, right boundaries in the right strip, and a propagated id has a right boundary |
| SegmentedExplore.StripItems | src/SegmentedMoat.cpp:211-212 | items inside the strip are not counted again, and marking them leaves the cells right of the strip as they were |
| SegmentedExplore.RestReady | src/SegmentedMoat.cpp:254-298 | a block at rest can start an exploration from any id with items, given that a left start uses a lookup naming left components only |
| SegmentedExplore.StepRests | src/SegmentedMoat.cpp:254-298 | an exploration leaves the block at rest, and a left start keeps every lookup id a left component |
| SegmentedExplore.RestAfter | src/SegmentedMoat.cpp:254-298 | tables that agree, with sizes of the same length and lookup cells only relabelled with the start, leave the block at rest |
| SegmentedExplore.PushedTrans | src/SegmentedMoat.cpp:207-247 | cells cleared between two scans stay accounted for on the stack across later pushes that keep the stack's bottom |
| SegmentedExplore.AccountedPop | src/SegmentedMoat.cpp:209-213 | popping the top point keeps every cleared cell on the stack or among the popped points |
| SegmentedExplore.ReachedVisited | src/SegmentedMoat.cpp:207-247 | a jump path through cells true before the exploration, starting at a visited point, ends at a visited point |
| SegmentedExplore.StepReaches | src/SegmentedMoat.cpp:194-251 | every point reachable by jump steps through true cells from the items is visited |
| SegmentedPhases.ClosedJoin | src/SegmentedMoat.cpp:256-260 | the visited points of successive explorations together stay closed: no jump step from any of them reaches an unvisited octant cell |
| SegmentedPhases.LeftAdvance | src/SegmentedMoat.cpp:256-260 | exploring from the next nonempty left id keeps the total size plus the unvisited cells right of the strip, the increasing order of explored ids, the zero size of every skipped id, and the closure of the visited points |
| SegmentedPhases.LeftBacked | src/SegmentedMoat.cpp:256-260 | after exploring from a nonempty left component every left id with a nonzero size still has points |
| SegmentedPhases.LeftReady | src/SegmentedMoat.cpp:257-258 | mid-loop, the next left id whose size is nonzero can start an exploration |
| SegmentedPhases.LeftExplored | src/SegmentedMoat.cpp:257-258 | exploring from that id keeps the loop invariant with the id appended to the explored order |
| SegmentedPhases.LeftSkipped | src/SegmentedMoat.cpp:257 | skipping a left id of size 0 keeps the loop invariant |
| SegmentedPhases.LeftTurn | src/SegmentedMoat.cpp:256-260 | one turn of the loop explores from left id index when its size is nonzero, else skips it, and keeps the loop invariant |
| SegmentedPhases.ExploreLeftComponents | src/SegmentedMoat.cpp:256-260 | after the loop the sizes plus unvisited cells right of the strip are as before, exactly the explored ids (in increasing order) may keep a size among the left ids, every explored component's points are visited, and the visited points are closed |
| SegmentedPhases.Dropped | src/SegmentedMoat.cpp:263-267 | the clean-up keeps the number of sizes |
| SegmentedPhases.SumLe | src/SegmentedMoat.cpp:263-267 | lowering sizes term by term lowers their total |
| SegmentedPhases.DroppedMeans | src/SegmentedMoat.cpp:263-267 | after the clean-up id 0 and every propagated id keep their size, every other id from 1 on has size 0, and the total does not grow |
| SegmentedPhases.DropUnpropagated | src/SegmentedMoat.cpp:263-267 | the clean-up loop computes exactly those sizes |
| SegmentedPhases.DroppedRests | src/SegmentedMoat.cpp:263-267 | the clean-up keeps the block at rest and every nonzero left size backed by points |
| SegmentedPhases.DroppedBacked | src/SegmentedMoat.cpp:263-267 | when id 0 has propagated, every size left after the clean-up has a nonempty right boundary |
| SegmentedPhases.LeftPhase | src/SegmentedMoat.cpp:254-268 | exploreLeftBoundary is the left loop followed by the clean-up of its sizes, and leaves the block at rest with lookup ids naming left components |
| SegmentedPhases.FreeSlot | src/SegmentedMoat.cpp:277-292 | the id chosen is the lowest i >= 1 with size 0, or the next id when there is none |
| SegmentedPhases.Claim | src/SegmentedMoat.cpp:287-293 | claiming keeps one size, right boundary and flag per id and makes the claimed id exist |
| SegmentedPhases.ClaimRests | src/SegmentedMoat.cpp:287-293 | claiming a right-strip cell keeps the block at rest and every size backed, leaves id 0's right boundary and flag and the array alone, and puts the cell in the claimed id's right boundary |
| SegmentedPhases.ScannedStep | src/SegmentedMoat.cpp:272-275 | scanned cells stay visited, and an exploration that visits (a, b) extends the scan past it |
| SegmentedPhases.RightSkip | src/SegmentedMoat.cpp:275 | a cell that is visited or outside the octant part b < a + x needs no exploration |
| SegmentedPhases.RightNext | src/SegmentedMoat.cpp:272-273 | finishing a column moves the scan to the bottom of the next |
| SegmentedPhases.RightClaimed | src/SegmentedMoat.cpp:276-293 | claiming cell (a, b) keeps what the scan has established |
| SegmentedPhases.RightAdvance | src/SegmentedMoat.cpp:294 | exploring from the claimed id visits (a, b), keeps id 0's right boundary and flag, and backs the claimed id's size with a right boundary |
| SegmentedPhases.RightReady | src/SegmentedMoat.cpp:276-294 | once (a, b) is claimed with a free id an exploration can start from that id |
| SegmentedPhases.RightExplored | src/SegmentedMoat.cpp:294 | the exploration from the claimed id keeps the loop invariant one cell further on |
| SegmentedPhases.RightCell | src/SegmentedMoat.cpp:274-295 | one cell of the scan: an unvisited octant cell gets the lowest free id from 1 on (or a new one) and is explored from, and the loop invariant moves one cell on |
| SegmentedPhases.RightPhase | src/SegmentedMoat.cpp:271-298 | after exploreRightBoundary every octant cell b < a + x of the right strip is visited, id 0's right boundary and flag are unchanged, and every nonzero size has a right boundary |
| SegmentedMoat.SegmentedMoat.constructor | src/SegmentedMoat.cpp:133-165 | a block at corner x with sides dx, dy over the statics: an empty block sieve of the window, one empty right boundary and unset flag per id, and the lookup of the left strip naming left components only |
| SegmentedMoat.SegmentedMoat.Create | src/SegmentedMoat.cpp:147-150 | no block exactly when 2 jumpSize > dx (the source exits); otherwise a fresh block as the constructor makes it |
| SegmentedMoat.SegmentedMoat.CallSieve | src/SegmentedMoat.cpp:169-189 | when the sieving primes reach isqrt(maxNorm), the block sieve gets exactly the sieving primes of norm at most maxNorm (every octant Gaussian prime up to the root and its flip among them), its array is the sieve over them, and every Gaussian prime of the window stays marked |
| SegmentedMoat.SegmentedMoat.SieveBlock | src/SegmentedMoat.cpp:180-188 | the filter and the block sieve: the same promises once the sieving primes are large enough |
| SegmentedMoat.SegmentedMoat.LeftLabelsLabel | src/SegmentedMoat.cpp:152-164 | a lookup naming left components only labels no cell with an id that has no left component |
| SegmentedMoat.SegmentedMoat.ExploreComponent | src/SegmentedMoat.cpp:194-251 | the block's fields after exploreComponent are the exploration Step promises from their old values |
| SegmentedMoat.SegmentedMoat.ExploreLeftBoundary | src/SegmentedMoat.cpp:254-268 | the fields end as the left loop's result with the sizes of the unpropagated ids from 1 on zeroed |
| SegmentedMoat.SegmentedMoat.ExploreRightBoundary | src/SegmentedMoat.cpp:271-298 | the fields end with every octant cell of the right strip visited, id 0's right boundary and flag unchanged, and every size backed by a right boundary |
| SegmentedMoat.SegmentedMoat.RunSegment | src/SegmentedMoat.cpp:300-315 | the left phase always runs; when id 0 has not propagated the left boundary and previousdy stay; when it has, the right phase runs, the right boundary shifted left by the cut becomes the left boundary, previousdy becomes dy, and the statics are ready for the next block |
| SegmentedMoat.SegmentedMoat.RightAndNext | src/SegmentedMoat.cpp:302-314 | the propagated branch: the right phase, then the shift, with id 0's flag unchanged |
| SegmentedMoat.SegmentedMoat.NextBlock | src/SegmentedMoat.cpp:305-313 | the left boundary becomes the right boundary shifted left by the cut, previousdy becomes dy, and the statics are ready |
| SegmentedMoat.SegmentedMoat.Process | src/SegmentedMoat.cpp:338-339 | callSieve then runSegment; on success the flags and sizes exist, and a propagated block leaves the statics ready with previousdy = dy |
| SegmentedMoat.SegmentedMoat.Store | src/SegmentedMoat.cpp:194-298 | writing a snapshot at rest back into the fields makes the block's state that snapshot |
| SegmentedMoat.NextBoundary | src/SegmentedMoat.cpp:305-313 | the shifted right boundary of a block at rest is a left boundary the next block can start from |
| SegmentedMoat.NextCorner | src/SegmentedMoat.cpp:333-343 | a block of width dx wide enough for its strips reaches above the previous height, the next corner x + floor(dx - jumpSize + 1) lies right of x and within blockSize, and the next block's previous height is within the jump size of it |
| SegmentedMoat.WidthFits | src/SegmentedMoat.cpp:333-334 | a block of positive width with area dx (x + dx) at most blockSize ends at or before blockSize |
| SegmentedMoat.RunBlock | src/SegmentedMoat.cpp:329-344 | one pass: the block at x of width DxFor(blockSize, x) and height x + dx is made, sieved and run; it stops when id 0 did not propagate, and otherwise moves to x + floor(dx - jumpSize + 1), from which a block can start |
| SegmentedMoat.CountMainComponent | src/SegmentedMoat.cpp:324-346 | the blocks start at 0 and each next corner is the previous one moved right by its cut; the count returned is the size of id 0 after the first block in which id 0 did not propagate |

## Left out

- src/SectorSieve.cpp is not part of this model. Its array shape and loop bounds come from floating-point tangents.
- Verbose output, progress bars, printing, file output and reading small primes from a file (src/BaseSieve.cpp:35-44, 64-115, 121-205) are I/O only and are not modelled. This includes `getSieveArrayValue`, `printDonutArrays` and `printCurrentComponent`.
- The command-line driver, the Python bindings and the test drivers are not part of this model.
- `OctantMoat::getCurrentComponent`, `getUnexplored` and `getAllComponents` are plain getters and are not modelled separately. The model's fields hold the same data.
- `SegmentedMoat::hasMainComponentPropagated` is read as the field `hasComponentPropagated[0]`.
- The floating-point cofactor bounds of the block sieves (src/BlockSieve.cpp:64-81) are modelled as exact integer ceiling and floor divisions.
- The jump size is an exact `real`, and the tolerance 10^-3 is the exact rational 1/1000. `floor(dx - jumpSize + 1)` and `a < jumpSize - 1` are taken exactly, with no rounding.
- Integers are unbounded. Fixed-width arithmetic is written out only where it matters:
  - the 64-bit norm is proved exact for 32-bit coordinates (`GaussianInt.Norm64Exact`);
  - the 32-bit wrap of the octant column height is a finding below.
- Other 32-bit counters and indices are assumed not to overflow.
- The `exit(1)` calls become results:
  - `OctantMoat.OctantMoat.Create` and `SegmentedMoat.SegmentedMoat.Create` return None;
  - `SegmentedStatics.Statics.SetStatics` returns false;
  - the origin search of `OctantMoat.OctantMoat.ExploreComponent` reports `escaped`.
- The doubling loop of `callSieve` ends only because Gaussian primes of every size exist. `SegmentedStatics.Statics.GrowSievingPrimes` bounds it by a fuel parameter and reports failure when the fuel runs out. `SegmentedMoat.CountMainComponent` passes that fuel on. Its own block loop is proved to end: each corner moves right and stays within `blockSize`.
- The sieve classes are separate classes. Each repeats the `run` and `sieve` of `SieveBase` (src/BaseSieve.cpp:19-50), with no inheritance.
- The segmented explorer's loops run on a value snapshot of the block's fields (`SegmentedExplore.Snapshot`). Each phase writes its result back into the fields once. Aliasing between the fields during a phase is therefore not modelled.
- The static members of `SegmentedMoat` are a separate `Statics` object, shared by reference between blocks.
- BlockSieve.BlockSieve.constructor: stores the corrected `maxNorm`, the largest norm in the window (`BlockWindow.MaxNorm`), not the product (x + dx - 1)(y + dy - 1) of src/BlockSieve.cpp:10 (finding 3). The product is modelled by `BlockSieve.WrittenMaxNormKeepsNine`.
- SegmentedMoat.SegmentedMoat.constructor: its block sieve carries the same corrected `maxNorm` (finding 3).
- SegmentedStatics.Statics.SetStatics: refuses a tolerant jump size of exactly 3.0, which the exit tests of src/SegmentedMoat.cpp:58-64 let through (finding 4). The source's behaviour for 3.0 is modelled by `SegmentedStatics.ThreeAdmitted`.
- OctantSieve.OctantSieve.SetSieveArray: requires maxNorm >= 1. For maxNorm 0, line 58 of src/OctantSieve.cpp writes cell (1, 0) of an array with one column.
- OctantSieve.OctantSieve.Run: requires maxNorm >= 2. For maxNorm 1, the sweep of 1 + i reads cell (1, 1), which the array does not have.
- QuadrantSieve.QuadrantSieve.Run: requires maxNorm >= 1. For maxNorm 0, src/QuadrantSieve.cpp:34 writes cell (1, 0) of an array with one column. `QuadrantSieve.QuadrantSieve.SetSieveArray` has the same bound.
- OctantDonutSieve.OctantDonutSieve.Run: requires maxNorm >= 4, so that the octant sieve setSmallPrimes builds has radius isqrt(maxNorm) >= 2 (the bound of `OctantSieve.OctantSieve.Run`).
- BlockSieve.BlockSieve.Run: requires maxNorm >= 4 for the same reason, and `UnitsFit`: the cells of 1 and i that src/BlockSieve.cpp:37-42 clears lie in the array.
- BlockDonutSieve.BlockDonutSieve.Run: requires maxNorm >= 16, so that the octant donut sieve setSmallPrimes builds has radius isqrt(maxNorm) >= 4 (the bound of `OctantDonutSieve.OctantDonutSieve.Run`), and `OriginFits`: the words of 1 and i that setSieveArray clears lie in the array.
- SegmentedExplore.Step: proves that every point reachable by jump steps from the start items is visited. It does not prove the converse, that every visited point is reachable from those items or from a merged left component.
- SegmentedExplore.Explore: states reachability through the cleared cells only (every cleared cell is visited), not that each visited cell is connected to the items.
- It is not proved that the right phase never merges into id 0, nor that the final size of id 0 is the size of the moat's main component in the plane. The model proves size conservation per exploration and the bookkeeping that carries it across blocks.
- The golden moat sizes of the test drivers are concrete regression values and are not stated.
- `GaussianInt.Add` and gint `==` are componentwise by definition. Datatype equality is Dafny's own, so neither has a separate contract.
- BaseSieve.Mod: the body of `mod` (include/BaseSieve.hpp:86) is not part of this model. It is specified as the remainder in [0, m).
- GaussianInt.LessIsStrictTotalOrder: stated for points with b >= 0 only. On the whole plane a + bi and a - bi are unordered by `<`.

## Findings

| source | as written | input that shows it | evidently intended | confidence | as-written member | corrected member |
|---|---|---|---|---|---|---|
| src/OctantDonutSieve.cpp:186-187 | `setBigPrimes` and `getCountBigPrimes` cross the diagonal at `isqrt(x / 20)`, while `setSieveArray` allocates each column up to `isqrt(x / 200)` | x = 10000: column 8 is allocated 7 words, but the harvest reads words 7 and 8 | the harvest visits exactly the allocated words | not executed | OctantDonutSieve.WrittenTopOverruns | OctantDonutSieve.ScanIsStored |
| src/OctantSieve.cpp:52 | the column height uses `a * a` on `uint32_t`, which wraps | maxNorm = 2^32, a = 65536: a * a wraps to 0 and the column gets 65537 cells instead of 1 | the height isqrt(maxNorm - a^2) + 1 with an exact square | not executed | OctantSieve.WrittenHeightWraps | OctantSieve.ShapeExact |
| src/BlockSieve.cpp:10 | the window's maxNorm is (x + dx - 1)(y + dy - 1), a product | window x = y = 0, dx = 10, dy = 2: maxNorm 9, small primes of norm at most 3, and the composite 9 = 3 * 3 stays marked prime | maxNorm (x + dx - 1)^2 + (y + dy - 1)^2, the largest norm in the window | not executed | BlockSieve.WrittenMaxNormKeepsNine | BlockWindow.WindowFactorBound |
| src/SegmentedMoat.cpp:58-64 | the exit tests admit the jump size 3.0 | input 2.999 gives 3.0 after the tolerance: the strip has 2 columns, but the seed 2 + i is in column 2 | jump sizes strictly between 3 and 6 | not executed | SegmentedStatics.ThreeAdmitted | SegmentedStatics.SeedsFit |
