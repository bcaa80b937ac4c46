# Speciation engine — a verified Dafny model

This project models the core of a header-only C++ library for speciated
evolutionary algorithms (NEAT-style speciation). A **genus** holds a
**species collection**. Each **species** is an ordered group of
individuals with a lineage id, an **age** (generations, evaluations and
generations without improvement) and the best fitness it has seen.

One generation step of the genus does the following:

- **speciate**: rebuild the species from a population by first-fit
  placement. An individual joins the first species whose representative
  (its first member) accepts it, or founds a new species with the next id.
- **update**: age every species and rejuvenate the best one. Then run
  fitness sharing: each member's raw fitness is boosted when the species
  is young, penalised when it is old or stagnating, and divided by the
  species size.
- **generate new individuals**: give every species a number of offspring
  in proportion to its share of the adjusted fitness, rounded. Correct the
  total when rounding misses the population size: add a deficit to the best
  species, or take an excess from the worst ones. Breed the children. Each
  child is kept by its species when the representative accepts it, and
  becomes an orphan otherwise.
- **next generation**: place the orphans first-fit among the new species,
  apply population management to each species that has a previous
  generation, reject duplicate ids, drop the empty species, and check the
  population size.

The model follows the source's own form:

- `Age`, `Species`, `SpeciesCollection` and `Genus` are classes whose
  methods update fields in place.
- Loops are `while` loops with invariants.
- Every such method is proved against a pure specification function:
  - first-fit placement is `FirstFit.PlaceAll`;
  - the sharing pass is `SpeciesGroups.Sharing`;
  - offspring allocation is `Correction.Offsprings`;
  - breeding is `Genera.Bred`;
  - population management is `Generations.Managed`.
- The properties the library relies on are proved about those functions.

Modules, one per file:

| file | module | models |
|---|---|---|
| `outcomes.dfy` | `Outcomes` | `Option`, `Result`, `Outcome` and the error kinds the source throws or asserts |
| `individuals.dfy` | `Individuals` | individuals, members with an optional adjusted fitness, the fitness order, `std::max_element` |
| `configuration.dfy` | `Configuration` | the configuration record |
| `age.dfy` | `AgeCounters` | `Age.h` |
| `species.dfy` | `SpeciesGroups` | `Species.h` |
| `firstfit.dfy` | `FirstFit` | first-fit clustering, as `speciate` and the orphan adoption perform it |
| `allocation.dfy` | `Allocation` | `_calculate_average_fitness` and `_calculate_population_size` |
| `correction.dfy` | `Correction` | `get_worst` as intended, `_correct_population_size` and `_count_offsprings` as functions |
| `collection.dfy` | `SpeciesCollections` | `SpeciesCollection.h` |
| `generations.dfy` | `Generations` | breeding, population management and the duplicate-id check, as values |
| `genus.dfy` | `Genera` | `Genus.h` and the `GenusSeed` record |

The caller supplies these functions; they are function-typed parameters
here:

- the compatibility test of individuals;
- selection and parent selection, which return positions in the parent
  pool;
- reproduction from one or two parents;
- mutation;
- population management.

The random generator is represented by a *draw number*: the number of
children bred before the current one.

## Model

| member | source | states |
|---|---|---|
| AgeCounters.Age.constructor | src/speciation/Age.h:19-23 | a new age has all three counters at zero |
| AgeCounters.Age.Copy | src/speciation/Species.h:47-51 | taking an age by value copies all three counters |
| AgeCounters.Age.IncreaseGenerations | src/speciation/Age.h:31 | generations grows by one; the other two counters are unchanged |
| AgeCounters.Age.IncreaseEvaluations | src/speciation/Age.h:32 | evaluations grows by one; the other two counters are unchanged |
| AgeCounters.Age.IncreaseNoImprovements | src/speciation/Age.h:33 | stagnation grows by one; the other two counters are unchanged |
| AgeCounters.Age.ResetGenerations | src/speciation/Age.h:39-42 | generations and stagnation become zero; evaluations are kept |
| AgeCounters.Age.ResetNoImprovements | src/speciation/Age.h:44-46 | only stagnation becomes zero |
| AgeCounters.Age.ResetEvaluations | src/speciation/Age.h:48-50 | only evaluations become zero |
| AgeCounters.Age.Equals | src/speciation/Age.h:53-58 | two ages are equal iff all three counters are |
| AgeCounters.Age.NotEquals | src/speciation/Age.h:60-61 | two ages differ iff some counter does |
| AgeCounters.EqualsIsEquivalence | src/speciation/Age.h:53-61 | `==` is reflexive, symmetric and transitive, and `!=` is exactly its negation |
| AgeCounters.StagnateThenReset | src/speciation/Age.h:31-46 | one more stagnant generation followed by a reset leaves stagnation at zero and the other counters untouched |
| Individuals.ScoreLessTotal | src/speciation/Species.h:115-122 | the fitness order (an absent fitness below every value) is total on distinct scores |
| Individuals.ScoreLessTransitive | src/speciation/Species.h:115-122 | the fitness order is transitive |
| Individuals.FirstMaxIndex | src/speciation/Species.h:115-122 | the position `std::max_element` returns: no element exceeds it, and it exceeds every element before it |
| Individuals.FirstMaxIndexUnique | src/speciation/Species.h:115-122 | those two properties determine the position uniquely |
| Individuals.UnadjustedRoundTrip | src/speciation/Species.h:174-182 | wrapping individuals as fresh members and unwrapping them gives the same list |
| SpeciesGroups.Species.constructor | src/speciation/Species.h:53-61 | the members are the individuals in order, none adjusted; the id and best fitness are the given ones; the age is new |
| SpeciesGroups.Species.WithAge | src/speciation/Species.h:47-51 | as the constructor, with a fresh copy of the given age |
| SpeciesGroups.Species.Singleton | src/speciation/Species.h:63-68 | a species founded by one individual with best fitness 0 |
| SpeciesGroups.Species.CloneWithNewIndividuals | src/speciation/Species.h:80-82 | a new species with the same id, best fitness and age counters, holding the new individuals |
| SpeciesGroups.Species.Representative | src/speciation/Species.h:130-133 | the representative is the first member's individual, one of the species' individuals |
| SpeciesGroups.Species.IsCompatible | src/speciation/Species.h:89-93 | an empty species accepts nobody; otherwise the representative decides, in both directions |
| SpeciesGroups.Species.Size | src/speciation/Species.h:255-257 | the number of individuals the species holds |
| SpeciesGroups.Species.GetBestIndividual | src/speciation/Species.h:112-123 | the first member whose fitness no other member exceeds |
| SpeciesGroups.Species.GetBestFitness | src/speciation/Species.h:100-105 | negative infinity for an empty species, else a member's fitness that no member exceeds |
| SpeciesGroups.Species.Insert | src/speciation/Species.h:164-169 | the individual is appended without an adjusted fitness; nothing else changes |
| SpeciesGroups.Species.SetIndividuals | src/speciation/Species.h:174-182 | the members become the new individuals in order, none adjusted |
| SpeciesGroups.Species.IndividualAdjustedFitness | src/speciation/Species.h:219-247 | zero becomes 0.0001; a fitness at least the best so far becomes the best and ends stagnation; the result is the fitness times the young, old and stagnation multipliers |
| SpeciesGroups.Species.AdjustFitness | src/speciation/Species.h:141-158 | the new members, best fitness, stagnation and outcome are those of `Sharing`: members before the first negative fitness are adjusted and divided by the size, and that negative fitness is reported |
| SpeciesGroups.Species.IncreaseGenerations | src/speciation/Species.h:259-261 | relays to the age: generations grows by one |
| SpeciesGroups.Species.IncreaseEvaluations | src/speciation/Species.h:263-265 | relays to the age: evaluations grows by one |
| SpeciesGroups.Species.IncreaseNoImprovementsGenerations | src/speciation/Species.h:267-269 | relays to the age: stagnation grows by one |
| SpeciesGroups.Species.ResetAge | src/speciation/Species.h:271-274 | generations and stagnation become zero; evaluations are kept |
| SpeciesGroups.RawFitness | src/speciation/Species.h:145-146 | an unevaluated individual counts as fitness 0; an evaluated one keeps its fitness |
| SpeciesGroups.Effective | src/speciation/Species.h:221-222 | the fitness used is never zero: zero becomes a small positive value, anything else is kept, so a non-negative fitness becomes positive |
| SpeciesGroups.Track | src/speciation/Species.h:225-228 | a fitness at least the best becomes the best and ends stagnation; a lower one changes nothing; the best becomes the larger of the two |
| SpeciesGroups.Weight | src/speciation/Species.h:230-246 | a species neither young nor old, and not stagnating or the best, keeps its fitness |
| SpeciesGroups.WeightBounds | src/speciation/Species.h:230-246 | with a boost above 1 and a penalty in (0, 1), a positive fitness stays positive and is at most boosted |
| SpeciesGroups.SharedMember | src/speciation/Species.h:153-156 | the member the pass writes keeps its individual and is adjusted |
| SpeciesGroups.TrackAll | src/speciation/Species.h:225-228 | after a pass over the fitnesses the best is at least the old best and every fitness seen, and is the old best or one of them |
| SpeciesGroups.TrackAllResetsIffImproved | src/speciation/Species.h:225-228 | stagnation ends exactly when some fitness reaches the previous best; otherwise it is unchanged |
| SpeciesGroups.Sharing | src/speciation/Species.h:141-158 | the pass succeeds iff no raw fitness is negative; the members keep their number, order and individuals; on success every member is adjusted |
| SpeciesGroups.SharingRejectsLeadingNegative | src/speciation/Species.h:149-151 | a negative first fitness fails the pass before anything changes |
| SpeciesGroups.SharingLastBestNeverNegative | src/speciation/Species.h:221-228 | the best fitness never decreases, and moves only to a positive value |
| SpeciesGroups.SharingPositive | src/speciation/Species.h:219-246 | with a boost above 1 and a penalty in (0, 1), every adjusted fitness of a successful pass is positive |
| SpeciesGroups.SharingExample | tests/species_test.cpp:109-150 | the "Species iterator" test: fitness 22, 21.1 and 22.1 with boost 1.1 give 22.1 as the best fitness and shares 22·1.1/3, 21.1·1.1/3, 22.1·1.1/3 |
| FirstFit.FirstAccepting | src/speciation/Genus.h:91-100 | the first species that accepts the individual: no earlier species accepts it, and the found one does |
| FirstFit.Place | src/speciation/Genus.h:87-106 | the individual joins the first accepting species, after its members, or founds a species with the next id; the counter advances iff a species was founded; every other species is unchanged |
| FirstFit.PlaceAll | src/speciation/Genus.h:236-252 | placing a sequence only adds species, and the counter advances by the number founded |
| FirstFit.PlaceConserves | src/speciation/Genus.h:87-106 | placing one individual adds exactly it to the pool of individuals |
| FirstFit.PlaceAllConserves | src/speciation/Genus.h:87-106 | placing a sequence adds exactly its multiset: nobody is lost or duplicated |
| FirstFit.PlaceAllCount | src/speciation/Genus.h:87-106 | the member count grows by the number of individuals placed |
| FirstFit.PlaceAllIds | src/speciation/Genus.h:102-105 | existing species keep their ids; founded species take consecutive ids from the counter, which advances by their number |
| FirstFit.PlaceKeepsAccepts | src/speciation/Species.h:89-93 | placing never changes whom an existing species accepts, since the representative stays first |
| FirstFit.PlaceAllKeepsAccepts | src/speciation/Genus.h:236-252 | the same for a whole sequence of placements |
| FirstFit.PlaceIsFirstFit | src/speciation/Genus.h:91-105 | one placement keeps the first-fit property: every placed member is rejected by all earlier species and accepted by its own representative |
| FirstFit.PlaceAllIsFirstFit | src/speciation/Genus.h:87-106 | a sequence of placements keeps the first-fit property |
| FirstFit.SpeciationIsFirstFit | src/speciation/Genus.h:78-107 | after `speciate`, every species is non-empty, every member is accepted by its representative, and no earlier species accepts it |
| FirstFit.SpeciationPlacesAll | src/speciation/Genus.h:78-107 | `speciate` places every individual exactly once, in non-empty species, and founds at least one species |
| FirstFit.PlaceAllNonEmpty | src/speciation/Genus.h:87-106 | placement never empties a species and founds only non-empty ones |
| FirstFit.PlaceAllFoundsNoneIff | src/speciation/Genus.h:236-252 | no species is founded iff every placed individual is accepted by one of the starting species |
| FirstFit.OrphanFoundsSpecies | src/speciation/Genus.h:245-250 | an orphan no starting species accepts leaves more species than there were |
| FirstFit.MemberCountIsPoolSize | src/speciation/SpeciesCollection.h:197-203 | the member count is the size of the pool of individuals |
| FirstFit.SurvivorsKeepMembers | src/speciation/SpeciesCollection.h:83-92 | dropping the empty species loses no individual |
| FirstFit.SurvivorsAreNonEmpty | src/speciation/SpeciesCollection.h:83-92 | the surviving species were there before and are non-empty; distinct ids stay distinct |
| FirstFit.Survivors | src/speciation/SpeciesCollection.h:83-92 | cleanup never adds species |
| FirstFit.SurvivorsKeepNonEmpty | src/speciation/SpeciesCollection.h:83-92 | every non-empty species survives cleanup |
| Allocation.AverageFitness | src/speciation/Genus.h:411-430 | the average is positive, and times the number of members it gives the total adjusted fitness |
| Allocation.TotalAdjusted | src/speciation/Genus.h:414-424 | the total adjusted fitness is never negative and is 0 when there are no members, so the positivity assertion implies there are members and the division is defined |
| Allocation.Share | src/speciation/Genus.h:445-450 | a species' unrounded share, accumulated one quotient per member, is its total adjusted fitness over the average, and never negative |
| Allocation.Round | src/speciation/Genus.h:451 | `std::lround` on a non-negative value is within one half of it (halves round up) |
| Allocation.RoundedShare | src/speciation/Genus.h:445-451 | a species' amount is within one half of its share |
| Allocation.PopulationSizes | src/speciation/Genus.h:441-455 | one amount per species, in order, each its rounded share |
| Allocation.SharesAreQuotients | src/speciation/Genus.h:445-452 | the same, species by species |
| Allocation.ShareSumIsQuotient | src/speciation/Genus.h:441-455 | the shares together, times the average, give the total adjusted fitness |
| Allocation.SharesAddUpToMembers | src/speciation/Genus.h:411-455 | against the true average, the unrounded shares add up to the number of members |
| Allocation.RoundingGap | src/speciation/Genus.h:441-455 | the rounded total is within half the number of species of the unrounded total |
| Allocation.RoundedAmountsNearCount | src/speciation/Genus.h:384-389 | so the rounded amounts miss the member count by at most half the number of species |
| Allocation.AllocationExample | src/speciation/Genus.h:378-455 | adjusted fitness 10, 20 and 30 give average 20 and amounts 1, 1 and 2: one too many, which the correction must remove |
| Correction.WorstIndex | src/speciation/SpeciesCollection.h:162-188 | the intended `get_worst` position satisfies `IsWorst`: the first eligible species whose best fitness no eligible species undercuts, or the end position iff none is eligible |
| Correction.IsWorstUnique | src/speciation/SpeciesCollection.h:162-188 | `IsWorst` determines the position uniquely |
| Correction.ScoredWorstIsFound | src/speciation/SpeciesCollection.h:162-188 | when eligible species exist and all have a fitness, the intended position is one of them, never the end |
| Correction.EligibleCountShrinks | src/speciation/Genus.h:486-502 | excluding the id of the chosen species makes fewer species eligible, so the excess loop ends |
| Correction.NoneEligibleNoAmount | src/speciation/Genus.h:486-502 | when no species is eligible, the eligible species hold no offspring |
| Correction.EligibleAmountOfAll | src/speciation/Genus.h:480-504 | before anything is excluded, the eligible species hold all the offspring, since empty species hold none |
| Correction.EligibleAmountStep | src/speciation/Genus.h:490-501 | emptying the worst species and excluding its id removes exactly its amount from what the eligible species hold |
| Correction.EligibleAmountUnaffected | src/speciation/Genus.h:501 | excluding an id no species carries changes nothing |
| Correction.Trim | src/speciation/Genus.h:480-504 | the excess loop lowers amounts only, keeps their number, changes nothing when there is no excess, and fails only by running out of species (at the end position) |
| Correction.TrimStep | src/speciation/Genus.h:487-501 | one pass of the excess loop leaves exactly the trimming still to do |
| Correction.TrimRemovesExcess | src/speciation/Genus.h:480-504 | an excess the eligible species can cover is removed exactly; no amount rises; ineligible species are untouched; the loop never runs out of species |
| Correction.CorrectionAddsMissing | src/speciation/Genus.h:469-510 | the correction succeeds and the total becomes the old total plus `missing`; a deficit changes only the best species, an excess only lowers amounts |
| Correction.Corrected | src/speciation/Genus.h:469-510 | no correction when nothing is missing; a deficit succeeds iff the best position is a species; a successful excess correction only lowers amounts |
| Correction.DeficitGoesToBest | src/speciation/Genus.h:474-478 | the whole deficit goes to the best species |
| Correction.ExcessIsTrimmed | src/speciation/Genus.h:480-504 | an excess no larger than the total is trimmed completely, lowering amounts only |
| Correction.Offsprings | src/speciation/Genus.h:378-405 | a successful result has one amount per species, and the amounts add up to n |
| Correction.Allotted | src/speciation/Genus.h:387-404 | the same for given rounded amounts |
| Correction.CheckedCorrection | src/speciation/Genus.h:391-402 | a corrected result that passes the check adds up to n |
| Correction.EmptySpeciesGetNothing | src/speciation/Genus.h:441-455 | a species without members is allotted no offspring |
| Correction.OffspringsAddUp | src/speciation/Genus.h:378-405 | with distinct ids and the best position in range, `_count_offsprings` never fails its final check |
| Correction.AllottedSucceeds | src/speciation/Genus.h:389-402 | amounts that give empty species nothing always pass the correction and its check |
| SpeciesCollections.SpeciesCollection.constructor | src/speciation/SpeciesCollection.h:29-33 | a new collection is empty and its cache is stale |
| SpeciesCollections.SpeciesCollection.Size | src/speciation/SpeciesCollection.h:236-238 | the number of species; once every species has a member, it is at most the number of individuals |
| SpeciesCollections.SpeciesCollection.CountIndividuals | src/speciation/SpeciesCollection.h:197-203 | the number of individuals over all species |
| SpeciesCollections.SpeciesCollection.CreateSpecies | src/speciation/SpeciesCollection.h:55-59 | a fresh singleton species is appended, the others are kept, and the cache becomes stale |
| SpeciesCollections.SpeciesCollection.AddSpecies | src/speciation/SpeciesCollection.h:65-68 | the species is appended and the cache becomes stale |
| SpeciesCollections.SpeciesCollection.SetIndividuals | src/speciation/SpeciesCollection.h:75-78 | only species i's members change, to the new individuals; the cache becomes stale |
| SpeciesCollections.SpeciesCollection.Cleanup | src/speciation/SpeciesCollection.h:83-92 | exactly the non-empty species remain, in order, with their states (`NonEmptyStates`); the cache is untouched |
| SpeciesCollections.SpeciesCollection.Clear | src/speciation/SpeciesCollection.h:97-100 | no species remain; the cache is untouched |
| SpeciesCollections.SpeciesCollection.AdjustFitness | src/speciation/SpeciesCollection.h:106-113 | every species in order runs its sharing pass, told whether it is at the cached best position; the outcome is the first failure |
| SpeciesCollections.SharedState | src/speciation/SpeciesCollection.h:111 | a species' pass keeps its age counters and individuals |
| SpeciesCollections.SharedStates | src/speciation/SpeciesCollection.h:106-113 | the collection's pass keeps every species' age counters and individuals |
| SpeciesCollections.ShareEach | src/speciation/SpeciesCollection.h:108-112 | the loop leaves the states `SharedStates` and reports `SharingOutcome` |
| SpeciesCollections.ShareOne | src/speciation/SpeciesCollection.h:111 | one species' pass is the i-th step of `SharedStates`; a failure completes it |
| SpeciesCollections.AdjustSpecies | src/speciation/SpeciesCollection.h:111 | one species' pass, stated on its value |
| SpeciesCollections.SharedStep | src/speciation/SpeciesCollection.h:108-112 | a species reached by the loop passes iff the first failure lies later; when it fails, the later species stay as they were |
| SpeciesCollections.SharedStatesAt | src/speciation/SpeciesCollection.h:106-113 | species up to the first failure have run their pass; the rest are unchanged |
| SpeciesCollections.SharedStatesPassIffNoNegative | src/speciation/SpeciesCollection.h:106-113 | the collection's pass succeeds iff no member has a negative fitness, and no species changes its individuals |
| SpeciesCollections.SpeciesCollection.UpdateCache | src/speciation/SpeciesCollection.h:211-228 | for a single species or species that all have members (`BestComparable`), the cached best is the first species whose best fitness no species exceeds; the cache becomes fresh |
| SpeciesCollections.SpeciesCollection.GetBest | src/speciation/SpeciesCollection.h:144-152 | the best position, recomputed iff the cache was stale (a stale cache needs `BestComparable` species) |
| SpeciesCollections.SpeciesCollection.Update | src/speciation/SpeciesCollection.h:120-136 | the states become `AgedStates`: every species is a generation older with one more stagnant generation, except the best before aging, which is rejuvenated |
| SpeciesCollections.AgeEach | src/speciation/SpeciesCollection.h:125-129 | every species a generation older and one more generation stagnant |
| SpeciesCollections.AgedStates | src/speciation/SpeciesCollection.h:120-136 | aging keeps members, best fitness and evaluations; the species at best goes back to zero generations and stagnation, every other one gains one of each |
| SpeciesCollections.Rejuvenate | src/speciation/SpeciesCollection.h:133-135 | only the old best species has its generations and stagnation reset |
| SpeciesCollections.SpeciesCollection.GetWorstAsWritten | src/speciation/SpeciesCollection.h:162-188 | as written, the scan fails with `MissingFitness` at the first eligible species without a fitness, where the source's assertion aborts; otherwise it returns the end position, even when eligible species exist |
| SpeciesCollections.SpeciesCollection.GetWorst | src/speciation/SpeciesCollection.h:162-188 | the corrected scan returns `WorstIndex` |
| SpeciesCollections.FindWorst | src/speciation/SpeciesCollection.h:168-185 | the corrected loop meets `IsWorst` and equals `WorstIndex` |
| SpeciesCollections.NonEmptyMembers | src/speciation/SpeciesCollection.h:83-92 | cleanup keeps exactly the non-empty species |
| SpeciesCollections.NonEmptyDistinct | src/speciation/SpeciesCollection.h:83-92 | cleanup keeps the species and their ages distinct |
| SpeciesCollections.ClustersOfNonEmpty | src/speciation/SpeciesCollection.h:83-92 | the values of the kept species are the surviving clusters |
| SpeciesCollections.CleanupKeepsCount | src/speciation/SpeciesCollection.h:83-92 | cleanup loses no individual |
| SpeciesCollections.CleanupIdempotent | src/speciation/SpeciesCollection.h:83-92 | when every species is non-empty, cleanup changes nothing |
| SpeciesCollections.NonEmpty | src/speciation/SpeciesCollection.h:83-92 | cleanup never adds species (`NonEmptyMembers` says which remain) |
| SpeciesCollections.NonEmptyStates | src/speciation/SpeciesCollection.h:83-92 | the states cleanup keeps are no more than before, and all have members |
| SpeciesCollections.StatesOfNonEmpty | src/speciation/SpeciesCollection.h:83-92 | the states of the kept species are the non-empty states |
| SpeciesCollections.Settled | src/speciation/Species.h:63-68 | species hold the placed members; those known before keep their best fitness, stagnation and age; founded ones start with best fitness 0.0 and a new age |
| SpeciesCollections.SettledTwice | src/speciation/Genus.h:236-252 | placing in two rounds settles the states as placing once |
| Generations.ChooseParents | src/speciation/Genus.h:349-363 | crossover with two parents iff crossover is on and the pool holds more than one individual; parents come from the pool |
| Generations.NewIndividualFromPool | src/speciation/Genus.h:340-368 | a child is the mutation of a two-parent reproduction from the pool iff crossover is on and the pool holds more than one individual, otherwise of a one-parent reproduction from the pool |
| Generations.Children | src/speciation/Genus.h:188-197 | a species breeds exactly its amount of children |
| Generations.AllChildren | src/speciation/Genus.h:176-214 | species j breeds its amount, with draws numbered on from the species before it |
| Generations.KeptRejectedSplit | src/speciation/Genus.h:199-206 | kept children are accepted, orphans are rejected, and together they are exactly the children |
| Generations.Kept | src/speciation/Genus.h:199-202 | no more children are kept than were bred |
| Generations.Rejected | src/speciation/Genus.h:203-205 | no more children are orphaned than were bred |
| Generations.KeptAccepted | src/speciation/Genus.h:200-202 | a child is kept iff it is one of the children and the representative accepts it |
| Generations.RejectedNotAccepted | src/speciation/Genus.h:203-205 | a child is an orphan iff it is one of the children and the representative rejects it |
| Generations.KeptRejectedPartition | src/speciation/Genus.h:199-206 | kept children and orphans together form the multiset of children |
| Generations.KeptRejectedStep | src/speciation/Genus.h:199-206 | each new child extends the kept children or the orphans |
| Generations.ConcatCount | src/speciation/Genus.h:188-206 | every child of every species is recorded for evaluation: their number is the total of the amounts |
| Generations.KeptAllAccepted | src/speciation/Genus.h:199-202 | every species keeps only children it accepts |
| Generations.OffspringConserved | src/speciation/Genus.h:199-206 | across all species, every child is kept or orphaned, exactly once |
| Generations.Managed | src/speciation/Genus.h:265-292 | population management keeps the number of species and their ids |
| Generations.ExactManagementFills | src/speciation/Genus.h:283-317 | when there is one previous generation per species (no species was founded by an orphan) and management returns exactly the target for each, the survivors hold exactly the allotted total |
| Generations.FoundedSpeciesCount | src/speciation/Genus.h:255-292 | with species founded by orphans beyond the previous generations, the survivors hold the allotted total plus every member of the founded species |
| Generations.FoundedSpeciesOverfill | src/speciation/Genus.h:255-321 | so an orphan that founded a species makes the survivors exceed the allotted total, and the size check fails |
| Generations.FirstDuplicatePrefix | src/speciation/Genus.h:298-306 | once a duplicate is met, scanning further reports the same one |
| Generations.FirstDuplicateIffRepeated | src/speciation/Genus.h:298-306 | a duplicate is reported iff two species share an id, and the reported id occurs twice |
| Genera.PlaceIndividual | src/speciation/Genus.h:88-105 | one first-fit placement into a collection is `Place`; existing species keep their best fitness and age (`Settled`); a founded species is fresh with best fitness 0.0 and a new age; the cache becomes stale iff a species was founded |
| Genera.AdoptOne | src/speciation/Genus.h:236-252 | one orphan placed is one more step of `PlaceAll`; existing species keep their place and state; founded ones are fresh |
| Genera.Respeciate | src/speciation/Genus.h:78-107 | emptying the collection and placing every individual is `PlaceAll` from nothing, with every species starting from zero |
| Genera.AdoptAll | src/speciation/Genus.h:236-252 | placing the orphans in order is `PlaceAll`; the existing species stay in place and keep their best fitness and age; the founded ones are fresh and start from zero |
| Genera.Populate | src/speciation/Genus.h:83-106 | speciation into an emptied collection is `PlaceAll` from nothing, holds exactly the individuals, leaves no species empty, and every species is fresh with best fitness 0.0 and a new age |
| Genera.BreedSpecies | src/speciation/Genus.h:188-207 | one species' children, with kept and orphaned sorted as `Kept` and `Rejected` |
| Genera.DrawnStep | src/speciation/Genus.h:188-213 | the draw numbers continue after the previous species' children |
| Genera.BroodIsBreeding | src/speciation/Genus.h:176-214 | breeding species by species is breeding the whole generation, up to each species |
| Genera.BroodIsBred | src/speciation/Genus.h:176-221 | breeding every species gives the clones, orphans, children and previous generations of `Bred` |
| Genera.BreedOne | src/speciation/Genus.h:177-213 | one pass of the species loop appends the i-th step of the brood |
| Genera.BreedEach | src/speciation/Genus.h:176-214 | the loop gathers the brood of every species into a fresh collection |
| Genera.BreedAll | src/speciation/Genus.h:165-221 | the seed satisfies `Bred`: clones of the old species in order with the children they accept, the orphans, every child for evaluation, and each old species' individuals |
| Genera.ManagePopulations | src/speciation/Genus.h:265-292 | corrected guard: species below the number of old species get what management returns; the rest keep their members; every species keeps its best fitness and age |
| Genera.ManagePopulationsAsWritten | src/speciation/Genus.h:265-292 | as written, the guard lets the position equal to the number of old species through, so the run fails there iff an orphan founded a species; otherwise as `ManagePopulations` |
| Genera.FindDuplicateId | src/speciation/Genus.h:298-306 | the id scan returns `FirstDuplicate` |
| Genera.ConcludeGeneration | src/speciation/Genus.h:298-321 | duplicate id, then size mismatch after dropping empty species, are errors in that order; otherwise a fresh genus holding the survivors with their states |
| Genera.ManageAndConclude | src/speciation/Genus.h:265-321 | management, then the closing checks, on the managed species; the survivors keep their best fitness and age |
| Genera.AdoptAndSettle | src/speciation/Genus.h:236-321 | the orphans are adopted first-fit, a counting error is passed on, otherwise management and the checks run on the adopted species; the surviving species keep their best fitness and age, the founded ones start from zero, and a collection not involved keeps its states |
| Genera.Genus.constructor | src/speciation/Genus.h:32-34 | a new genus is empty and hands out id 1 first |
| Genera.Genus.FromCollection | src/speciation/Genus.h:41-44 | a genus takes over a collection and an id counter |
| Genera.Genus.Size | src/speciation/Genus.h:518-520 | the number of species in the genus's collection; once every species has a member, it is at most the number of individuals |
| Genera.Genus.CountIndividuals | src/speciation/Genus.h:530-532 | the number of individuals over all species |
| Genera.Genus.Speciate | src/speciation/Genus.h:78-107 | the species become the first-fit placement of the individuals, with ids from the counter, which advances by the number founded; every species is founded afresh with best fitness 0.0 and a new age |
| Genera.Genus.Update | src/speciation/Genus.h:124-133 | aging with rejuvenation of the best, then the sharing pass told the best position aging left in the cache |
| Genera.Genus.GiveUpWorst | src/speciation/Genus.h:487-501 | the worst eligible species gives up what it can; the trimming left is unchanged, and fewer species are eligible |
| Genera.Genus.TrimExcess | src/speciation/Genus.h:480-504 | the excess loop returns `Trim`, and an error when it runs out of species |
| Genera.Genus.CorrectPopulationSize | src/speciation/Genus.h:469-510 | the result is `Corrected`, with the best from `get_best` for a deficit; only a deficit refreshes the cache |
| Genera.Genus.AddToBest | src/speciation/Genus.h:474-478 | the deficit branch is `Corrected`, at the position `get_best` reports |
| Genera.Genus.CorrectAndCheck | src/speciation/Genus.h:391-402 | correction, then the sum check, is `CheckedCorrection` |
| Genera.Genus.CountOffsprings | src/speciation/Genus.h:378-405 | the amounts are `Offsprings`; the species are untouched |
| Genera.Genus.Allot | src/speciation/Genus.h:387-404 | the tail of `_count_offsprings` is `Allotted` |
| Genera.BestPosition | src/speciation/SpeciesCollection.h:144-152 | with a fresh cache the cached position; when stale, a species whose best fitness no species exceeds |
| Genera.Genus.GenerateNewIndividuals | src/speciation/Genus.h:151-221 | a counting error is passed on; otherwise the seed satisfies `Bred` for the counted amounts, and the species are unchanged |
| Genera.Genus.NextGeneration | src/speciation/Genus.h:223-322 | a recount error is passed on; otherwise the adopted and managed species are checked for duplicate ids and size, and the new genus holds the survivors, with their best fitness and age (founded species from zero), and the advanced id counter; this genus's own species and their states are unchanged |

## Left out

- Random numbers: selection draws are deterministic functions of the pool and a draw number. No distribution is modelled.
- Evaluation (`ensure_evaluated_population`): fitness is an input on each individual.
- Logging and the text of error messages are left out.
- The thrown exceptions become `Err` or `Fail` values carrying the offending value: `invalid_fitness` (`Species.h` line 150) is `InvalidFitness`, and the `runtime_error`s of `_count_offsprings` (`Genus.h` lines 396-401) and `next_generation` (lines 298-303 and 310-316) are `OffspringSumMismatch`, `DuplicateSpeciesId` and `PopulationSizeMismatch`. The `get_worst` assertion (`SpeciesCollection.h` line 181) becomes `MissingFitness`. Reads past the last species become `SpeciesIndexOutOfRange`: the source does not guard the positions `get_worst` and `get_best` return, and it guards the management loop one position too late (see Findings).
- The assertions on what the caller passes in become `requires` clauses:
  - `Species.h` lines 113, 131 and 142 are `|members| > 0` on `SpeciesGroups.Species.GetBestIndividual`, `Representative` and `AdjustFitness`.
  - `SpeciesCollection.h` lines 146, 163 and 212 are `|collection| > 0` on `SpeciesCollections.SpeciesCollection.GetBest`, `GetWorst`, `GetWorstAsWritten` and `UpdateCache`.
  - `Genus.h` line 80 is `|xs| > 0` on `Genera.Genus.Speciate`, `Genera.Populate` and `Genera.Respeciate`.
  - `Genus.h` line 350 is `|pool| > 0` on `Generations.ChooseParents`, `NewIndividual` and `NewIndividualFromPool`.
  - `Genus.h` line 380 is `n > 0` on `Genera.Genus.CountOffsprings`.
  - `Genus.h` lines 418, 424 and 448 are `Adjusted(cs) && TotalAdjusted(cs) > 0.0` on `Allocation.AverageFitness`, `Correction.Offsprings`, `Genera.Genus.CountOffsprings`, `GenerateNewIndividuals` and `NextGeneration`.
- The remaining assertions are properties, not preconditions. The one after the excess loop (`Genus.h` line 504) is `Correction.TrimRemovesExcess`; the recount check (line 258) is discussed below. The assertions in `ensure_evaluated_population` (lines 117-118) and in the move constructor (`SpeciesCollection.h` line 47) belong to parts left out below.
- Ownership is not modelled: `std::unique_ptr`, moves, the move constructors and move assignment, and the iterators over species and members.
- Fitness is a real number, not a float, so rounding error in the average and the shares is not modelled. `std::lround` is modelled for non-negative values, which are the only ones it receives.
- Counters are unbounded naturals, so 32-bit wrap-around of ids, ages and amounts is not modelled.
- The number of missing offspring is a signed difference. The source computes it unsigned and passes it as `int`; the two agree as long as the amounts fit in 32 bits.
- Genera.Genus.NextGeneration: the target passed to the recount is the full population size. `new_population_size` is hard-wired to 0 in the source, so the species founded by orphans are not subtracted from it.
- Genera.Genus.NextGeneration: the recount runs before the orphan adoption, not after it. The recount reads only the genus's own collection, and the seed's collection is a different object, so the results are the same.
- Genera.Genus.NextGeneration: the assertion that the recounted amounts add up to the target (`Genus.h` line 258) is the check inside `_count_offsprings`. `Correction.OffspringsAddUp` proves that check never fails, but only under three conditions: the species ids are distinct, the best position is a species, and the excess loop picks its species with the corrected `get_worst` (`Correction.WorstIndex`, which `GetWorst` computes), not the scan as written (`GetWorstAsWritten`). Without them the recount can fail, and `NextGeneration` passes the error on.
- Genera.Genus.Update: `Genus.h` line 127 calls `compute_update` and line 130 calls `compute_adjust_fitness`. `SpeciesCollection.h` defines neither; the model takes them to be `update` and `adjust_fitness`.
- Genera.Genus.Speciate: its contract gives the placement. That the placement holds every individual once, in non-empty species, is stated by `Populate` and `SpeciationPlacesAll`.
- SpeciesCollections.SpeciesCollection.Cleanup and Clear leave the cache flag as it was, as the source does. A cached best position can then point past the end.
- The second `SpeciesCollection` constructor, which takes a vector, is left out. `Genus.FromCollection` plays its role in `next_generation`.
- SpeciesGroups.Species.constructor: the default best fitness of 0.0 (`Species.h` lines 47 and 53) is not a separate overload. Dafny has no default arguments, so callers pass 0.0 themselves, as `Settled` does for founded species.
- SpeciesCollections.NonEmpty, FirstFit.Survivors, FirstFit.PlaceAll, Generations.Kept and Generations.Rejected: their own contracts state only sizes. Which elements they keep or add is stated by the lemmas named next to them (`NonEmptyMembers`, `SurvivorsAreNonEmpty` and `SurvivorsKeepNonEmpty`, `PlaceAllIds` and `PlaceAllConserves`, `KeptAccepted` and `RejectedNotAccepted`).
- Generations.NewIndividual: its contract is `NewIndividualFromPool`, which states the shape of the child but not which parents the selection strategies pick.
- `Conf` defaults and the `Sensible` ranges are data; `Selection.h`, `PopulationManagement.h` and `Random.h` are strategies supplied by the caller, not part of this model.

## Findings

| source | as written | input that shows it | evidently intended | confidence | as-written member | corrected member |
|---|---|---|---|---|---|---|
| src/speciation/SpeciesCollection.h:165-184 | `get_worst` starts its running minimum at negative infinity and replaces it only with a strictly smaller fitness, so a species with a fitness is never selected | two eligible species with best fitness 1.0 and 2.0: the scan returns the end position, and `_correct_population_size` then indexes the amounts with it | start from the first eligible species (or positive infinity) and return the eligible species with the lowest best fitness | not executed | SpeciesCollections.SpeciesCollection.GetWorstAsWritten | SpeciesCollections.SpeciesCollection.GetWorst |
| src/speciation/Genus.h:265-267 | the management loop stops only when `species_i > species_collection.size()`, so the first species an orphan founded, at position `size()`, is managed with `old_species_individuals[size()]` and `offspring_amounts[size()]`, both past their end | one orphan that no new species accepts founds a species at the position equal to the number of old species | stop when `species_i >= species_collection.size()`, leaving the species founded by orphans as they are | not executed | Genera.ManagePopulationsAsWritten | Genera.ManagePopulations |

For the first row:

- `GetWorstAsWritten` proves that the scan fails with `MissingFitness`
  at an eligible species without a fitness, and otherwise returns the end
  position, even when eligible species exist.
- `ScoredWorstIsFound` proves that the intended position in that case is
  an eligible species.
- `GetWorst`, which returns `WorstIndex`, is what the excess correction
  uses.

For the second row:

- `ManagePopulationsAsWritten` proves that the run fails exactly when the
  new collection has more species than there are old ones.
- `OrphanFoundsSpecies` proves that an orphan which no species accepts
  makes it so.
- `ManagePopulations` is the loop with the corrected guard, and it is what
  `NextGeneration` uses.
