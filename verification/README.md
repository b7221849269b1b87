# FootprintPred in Dafny

A functional model of `FootprintPred`, a predictor that decides when a huge
page of slow memory should be migrated into fast (3D-stacked) memory, with
proofs about it.

- **Footprint policy.** A set-associative *footprint table* records, for each
  huge page it tracks, which 4 KiB sub-pages have been touched.
  - When more than a threshold fraction of a page's sub-pages has been
    touched, the page is migrated.
  - The *translation table* is a flat table of fast-memory slots.
  - When the translation table is full, CLOCK second-chance replacement with
    a persistent hand picks the slot to evict.
- **Hot/cold policy.** The page being queried is migrated once every
  `TIMESLICE` = 10000 queries.

The model is a pure state machine. Both tables are immutable sequences, and
each source routine is a pure function from state to state.

| module | file | what it holds |
|---|---|---|
| `Wrappers` | wrappers.dfy | `Option` |
| `Arith` | arith.dfy | `Pow2`; `FloorLog2`, which is `(int)log2`; the division facts that shifts and masks rest on |
| `Search` | search.dfy | first and last index satisfying a predicate, counting |
| `Codec` | codec.dfy | `get_small_pg`, `get_index`, `get_tag`, `get_hugetag`, and their inverse `SubPageAddr` |
| `Footprint` | footprint.dfy | `fp_entry`, `init_fp_entry`, `record_access` on one set |
| `Translation` | translation.dfy | `trans_entry`, `init_trans_entry`, the residency loop, the CLOCK sweep, `migrate_page` |
| `Predictor` | predictor.dfy | constructor geometry, the predictor state, `addr_inFastMem` (`Query`), runs of queries |
| `Scenarios` | scenarios.dfy | the source's own driver scenarios 1 and 5, stated as lemmas |

Modelling decisions:

- **Addresses.** An address is a `nat` below 2^64.
  - `x >> k` is `x / 2^k`, and `x & ((1 << m) - 1)` is `x % 2^m`.
  - `H` = `hugebits` = floor(log2(hsize)) + 10.
  - `I` = `lg_fpsize` = floor(log2(fsize / fassoc)).
- **Threshold.** The `float` threshold is the exact fraction `num/den`.
  - The test `sum > threshold * 2^(H-12)` becomes `sum * den > num * 2^(H-12)`.
  - This is exact, because multiplying a binary float by a power of two is exact.
- **Random way.** The random way `random(1, fassoc - 1)` is a draw `w` that
  the caller supplies. It must satisfy `1 <= w <= fassoc - 1`, unless
  `fassoc == 1`, in which case the source never draws.
- **Query answer.** `Query` returns the next state, the answer, and whether
  `migrate_page` ran. The answer is the residency *before* the call, as the
  source computes it.

## Model

| member | source | states |
|---|---|---|
| Arith.FloorLog2 | footprint_pred.cc:84-85 | `(int)log2(n)` is the unique e with 2^e <= n < 2^(e+1) |
| Codec.SmallPage | footprint_pred.cc:305-314 | the sub-page is below 2^(H-12), so the bitmap access is in bounds |
| Codec.Index | footprint_pred.cc:294-303 | the set index is below 2^I, so the table access is in bounds |
| Codec.Tag | footprint_pred.cc:271-280 | the footprint tag fits in the 64-H-I bits above the index |
| Codec.HugeTag | footprint_pred.cc:282-292 | the huge-page tag fits in the 64-H bits above the huge-page offset |
| Codec.HugeTagIsShift | footprint_pred.cc:283-292 | the mask in get_hugetag is redundant: the huge-page tag is the address shifted right by H |
| Codec.HugeTagSplits | footprint_pred.cc:271-303 | huge-page tag == footprint tag * 2^I + set index |
| Codec.IndexTagOfHugeTag | footprint_pred.cc:271-303 | index and footprint tag are the low I bits of the huge-page tag and the rest, so they depend on the huge page alone |
| Codec.SameHugePageSameSet | footprint_pred.cc:271-303 | two addresses are in the same huge page exactly when they share set index and footprint tag |
| Codec.AddressRecomposes | footprint_pred.cc:283-314 | an address is its huge-page tag, sub-page and byte offset recombined: the split loses nothing |
| Codec.SubPageAddr | footprint_pred.cc:283-314 | inverse of the codec: the address built from huge page h and sub-page k decodes to exactly h and k |
| Footprint.InitEntry | footprint_pred.cc:249-260 | init_fp_entry: tag 0, invalid, sum 0, every bit clear, and the count consistent |
| Footprint.FreshEntry | footprint_pred.cc:199-206 | a new entry is valid with the new tag, sum 1, and exactly the touched sub-page's bit set |
| Footprint.Mark | footprint_pred.cc:163-170 | marking sets the bit and keeps every other bit; the sum rises by one iff the bit was clear; the cached sum stays the bit count |
| Footprint.FindWay | footprint_pred.cc:155-159 | the lookup loop does not stop, so it yields the last valid way with the tag, and None iff no valid way has it |
| Footprint.Victim | footprint_pred.cc:181-194 | as intended: the lowest invalid way if there is one, otherwise the drawn way w |
| Footprint.InsertMiss | footprint_pred.cc:181-207 | corrected miss: way 0 becomes the fresh entry, the old way-0 value moves to the victim, all other ways are kept |
| Footprint.RecordAccess | footprint_pred.cc:147-210 | hit: mark, then invalidate and migrate iff sum crosses the threshold, else swap with way 0, other ways kept; miss: InsertMiss, no migration; consistency of every entry is preserved |
| Footprint.Crosses | footprint_pred.cc:173 | the migration test as an integer comparison with the threshold num/den; it has no contract of its own, and CrossesExact and CrossesMonotone state what it means |
| Footprint.CrossesExact | footprint_pred.cc:173 | the integer test agrees, in both directions, with the comparison `sum > (num/den) * pages` over the reals |
| Footprint.CrossesMonotone | footprint_pred.cc:172-173 | once a count crosses the threshold, every larger count does |
| Footprint.SumBounded | footprint_pred.cc:164-170 | a consistent entry's sum never exceeds the number of sub-pages |
| Footprint.TouchFirst | footprint_pred.cc:181-207 | the first touch of an unknown page installs it at way 0 with only sub-page 0 counted, and never migrates |
| Footprint.TouchNext | footprint_pred.cc:161-180 | touching the next sub-page of a page tracked at way 0 migrates iff the new count crosses the threshold, otherwise keeps tracking it with the count one higher; other ways unchanged |
| Footprint.RecordAccessKeepsTagsDistinct | footprint_pred.cc:147-210 | no set ever holds two valid ways with the same tag |
| Footprint.MissAsWritten | footprint_pred.cc:183-207 | the miss path as written: a full multi-way set writes to way -1 (None); with one way or an invalid way the result exists, way 0 and the first invalid way both hold the new entry, and every other way is kept |
| Footprint.MissAsWrittenLosesWayZero | footprint_pred.cc:183-197 | as written, the old way-0 entry disappears from the set; the corrected InsertMiss keeps it |
| Translation.Lookup | footprint_pred.cc:124-129 | the residency loop: a hit iff some valid slot holds the page; every such slot gets its reference bit set, nothing else changes |
| Translation.LookupMissUnchanged | footprint_pred.cc:124-129 | a miss leaves the table as it was |
| Translation.LookupSetBitsUnchanged | footprint_pred.cc:124-129 | when the matching slots' bits are already set, the table is unchanged |
| Translation.LookupIdempotent | footprint_pred.cc:124-129 | looking a page up twice is looking it up once |
| Translation.LookupKeepsResidency | footprint_pred.cc:124-129 | the lookup changes no page's residency and keeps slots distinct |
| Translation.InitTransEntry | footprint_pred.cc:262-269 | init_trans_entry: the slot holds no huge page and its reference bit is clear |
| Translation.Next | footprint_pred.cc:234 | the hand advance is (hand + 1) mod ram_pages and stays in the table |
| Translation.ClockSweep | footprint_pred.cc:230-239 | CLOCK: passes at most every slot once, clears exactly the passed bits (all of them set), stops at the first clear one in hand order (or back at the start), and leaves the hand one past the victim |
| Translation.SweepStep | footprint_pred.cc:231-234 | one loop iteration: clearing the set bit at the hand and sweeping on from the next slot is the sweep from the hand |
| Translation.SweepAllSet | footprint_pred.cc:230-239 | with every bit set, the hand goes once round, clears everything, and evicts its starting slot |
| Translation.SweepStopsAtFirstClear | footprint_pred.cc:230-239 | with some bit clear, the sweep stops no later than that slot, within fewer than ram_pages steps |
| Translation.Migrate | footprint_pred.cc:214-247 | the victim slot gets {page, valid, bit clear}; with an invalid slot it is the lowest one, the hand and all other slots stay and the valid count rises by one; a full table evicts by CLOCK; the valid count never exceeds ram_pages |
| Translation.MigrateFullAllSet | footprint_pred.cc:228-244 | full table with all bits set (driver test 3): the slot under the hand is evicted, the hand advances by one, every other slot keeps its page and loses its bit |
| Translation.MigratedPageHits | footprint_pred.cc:242-244 | after a migration the page is resident |
| Translation.MigrateKeepsDistinct | footprint_pred.cc:214-247 | migrating a non-resident page never puts one page in two slots |
| Translation.WidenedKey | footprint_pred.cc:120 | the key the loop really compares: the low 32 bits as a signed int, re-widened; the low 32 bits of the tag when they are below 2^31, at least 2^64 - 2^31 when they are at or above |
| Translation.LookupAsWritten | footprint_pred.cc:120-129 | the residency loop as written hits iff a valid slot holds WidenedKey(h) |
| Translation.LookupAsWrittenAgrees | footprint_pred.cc:120-129 | for huge-page tags below 2^31 the as-written loop and Lookup agree exactly |
| Translation.TruncatedTagMisses | footprint_pred.cc:120-129 | huge page 2^31, once migrated, is found by Lookup but missed by the as-written loop |
| Translation.TruncatedTagFalseHit | footprint_pred.cc:120-129 | with huge page h < 2^31 resident and h + 2^32 not, the as-written loop reports h + 2^32 resident while Lookup misses it |
| Predictor.SubPages | footprint_pred.cc:173 | `pow(2, hugebits - PGBITS)`, the bitmap length, is at least one |
| Predictor.SubPagesCover | footprint_pred.cc:254 | a huge page of 2^H bytes is exactly SubPages sub-pages of 4 KiB |
| Predictor.ParsePolicy | footprint_pred.cc:89-93 | exactly "footprint" selects the footprint policy, every other string hot/cold |
| Predictor.Configure | footprint_pred.cc:80-93 | the derived configuration is valid (in-range widths, at least one set and one slot), the policy is parsed, the threshold is kept |
| Predictor.ConfigureSets | footprint_pred.cc:81-84 | fsize / fassoc sets of fassoc ways, indexed by floor(log2(sets)) bits |
| Predictor.ConfigurePages | footprint_pred.cc:85-86 | 2^H is the largest power of two not above hsize KB; ramsize / hsize slots |
| Predictor.NewExactSets | footprint_pred.cc:84 | with a power-of-two set count, I is exactly its logarithm |
| Predictor.NewExactHugePages | footprint_pred.cc:85 | with hsize = 2^k KB, H = k + 10 and a huge page has hsize / 4 sub-pages |
| Predictor.New | footprint_pred.cc:80-116 | the constructed state is well formed; every footprint entry is init_fp_entry, every slot init_trans_entry; hand and counter are 0 |
| Predictor.Query | footprint_pred.cc:118-144 | addr_inFastMem keeps the state well formed, records mru, and answers with the residency before the call |
| Predictor.QueryHotCold | footprint_pred.cc:136-141 | hot/cold: footprint table untouched; counter advances modulo TIMESLICE; migration exactly when it wraps, of the queried page, resident or not |
| Predictor.QueryFootprintHit | footprint_pred.cc:124-135 | footprint policy, resident page: a hit that only sets the matching reference bits; footprint table and hand untouched; no migration |
| Predictor.QueryFootprintMiss | footprint_pred.cc:132-135 | footprint policy, non-resident page: record_access on the indexed set only; the translation table changes iff record_access migrates, and then the page becomes resident |
| Predictor.RepeatHitIsIdempotent | footprint_pred.cc:118-144 | repeating a query for a resident page changes nothing but the access counter |
| Predictor.FootprintQueryKeepsDistinct | footprint_pred.cc:118-144 | under the footprint policy no page ever occupies two slots and no set holds a tag twice |
| Predictor.Run | footprint_pred.cc:20-26 | the driver's loop of addr_inFastMem calls: one answer per address, at most one migration per query, the state stays well formed |
| Predictor.NewIsDistinct | footprint_pred.cc:103-115 | the constructed state holds no page twice and no tag twice in a set |
| Predictor.FootprintRunKeepsDistinct | footprint_pred.cc:118-144 | under the footprint policy every run of queries keeps both distinctness invariants |
| Predictor.FootprintNeverDuplicates | footprint_pred.cc:80-144 | a constructed footprint predictor, after any run of queries, never holds a page in two slots or a tag twice in a set |
| Predictor.HotColdCanDuplicate | footprint_pred.cc:136-141 | under hot/cold, a query that ends a time slice for a resident page, with a free slot left, gives the page a second slot |
| Predictor.HotColdMigrationCount | footprint_pred.cc:136-141 | n hot/cold queries from counter c migrate exactly (c + n) div TIMESLICE times and leave the counter at (c + n) mod TIMESLICE |
| Scenarios.PageAddrs | footprint_pred.cc:21-23 | the driver's 4 KiB-stride walk: hi - lo addresses, the i-th 4 KiB aligned, in huge page h, at sub-page lo + i |
| Scenarios.FirstTouch | footprint_pred.cc:181-207 | a predictor's first access to a huge page misses and migrates nothing; its set becomes the corrected insertion of the page with one sub-page, and nothing outside the set changes |
| Scenarios.TouchStep | footprint_pred.cc:161-180 | an access to the next sub-page below the threshold misses and only counts that sub-page in the page's set |
| Scenarios.TouchCrosses | footprint_pred.cc:172-175 | the access whose count crosses the threshold still misses, migrates, and leaves the page resident |
| Scenarios.TouchRun | footprint_pred.cc:16-27 | walking sub-pages m .. n-1 below the threshold: no hit, no migration, the count at way 0 reaches n; the translation table, the hand, every other set and every other way of the page's set are unchanged |
| Scenarios.CrossRun | footprint_pred.cc:16-27 | walking up to the first sub-page that crosses: no hit, exactly one migration, the page ends resident |
| Scenarios.FreshTouchRun | footprint_pred.cc:16-27 | the same walk from a page never seen before, below the threshold: no hit, no migration, n sub-pages counted; the translation table, the hand and every other set are unchanged, and the other ways of the page's set are those the first miss's insertion left |
| Scenarios.FreshCrossRun | footprint_pred.cc:16-27 | the same walk from a page never seen before, up to the crossing |
| Scenarios.NewIsFresh | footprint_pred.cc:103-115 | a newly built footprint predictor knows no huge page and holds none in fast memory |
| Scenarios.TestOneGeometry | footprint_pred.cc:18 | driver test 1's predictor (and test 3's, built alike at line 46) has 2048 sets of one way, 11 index bits, 256 fast-memory slots, H = 22, 1024 sub-pages per huge page |
| Scenarios.BelowHalf | footprint_pred.cc:16-27 | test 1: sub-pages 0 .. 511 miss and migrate nothing, with the frame of FreshTouchRun |
| Scenarios.ThresholdAtHalf | footprint_pred.cc:16-27 | test 1: with sub-page 512 the page is migrated, exactly once, after 513 misses |
| Scenarios.ResidentHits | footprint_pred.cc:124-129 | once the page is resident, every one of its sub-pages hits (sub-page 513 is the first hit of test 1) |
| Scenarios.TestFiveStart | footprint_pred.cc:66 | driver test 5's predictor is hot/cold with 8 sets of 4 ways and its counter at 0 |
| Scenarios.HotColdTenMigrations | footprint_pred.cc:64-69 | test 5: 100000 hot/cold queries from counter 0 migrate exactly 10 times, whatever the addresses |

## Left out

- Output with `cout`, the driver's loops over random addresses, and `main`
  itself (footprint_pred.cc:10-74). These are I/O.
  - Tests 1 and 5 are stated as lemmas in `Scenarios`.
  - Test 3 is stated only for the eviction it aims at, in
    `Translation.MigrateFullAllSet`, for any hand; see the last line of this
    section.
  - Test 2 is the input of the first Findings row.
  - Test 4 exercises nothing the general lemmas do not cover.
- The random generator (random.hh, random.cc), which wraps a library
  generator.
  - Its result is the caller-supplied draw `w`, restricted to the inclusive
    range [1, fassoc - 1] that `random(min, max)` returns.
  - random.hh and random.cc are not part of this model.
- The `Stats::Scalar` counters and `regStats`. They are declared but never
  updated.
- `malloc`, the table of pointers, and the bitmaps that are never freed.
  - Tables are sequences of values.
  - The pointer aliasing at footprint_pred.cc:196 is the subject of the first
    Findings row.
- Floating point.
  - The threshold is an exact fraction.
  - `log2` and `pow` on the configured sizes are `FloorLog2` and `Pow2`.
- `int` overflow. The model keeps these as unbounded `nat`s:
  - `hotCold_clock` under the footprint policy, which is never reset;
  - `footprint_sum`;
  - `clock_hand`.
- `mru` starts at 0. The source leaves it uninitialised, but it is written
  before anything reads it.
- Predictor.Configure: the constructor's preconditions are what its
  arithmetic needs:
  - `fassoc >= 1` and at least one set;
  - `hsize >= 4`, so that a huge page is at least one sub-page;
  - at least one fast-memory slot;
  - a denominator > 0;
  - `I + H < 64`, so that every shift stays below the address width.

  Outside these the source divides by zero, shifts out of range, or allocates
  nothing. It does not reject such inputs, so neither does the model.
- Predictor.Query: the residency check compares full huge-page tags. The
  32-bit conversion the source performs is modelled separately, in
  Translation.LookupAsWritten; see Findings.
- Footprint.RecordAccess: the miss path follows the evident intent, not the
  code. The code as written is modelled separately, in
  Footprint.MissAsWritten; see Findings.
- Scenarios.BelowHalf, Scenarios.ThresholdAtHalf: stated for any state where
  the page is fresh and the predictor has test 1's sub-page count and
  threshold, not for the constructed state itself.
  - Scenarios.TestOneGeometry and Scenarios.NewIsFresh show that the
    constructed state is such a state.
  - The lemmas are stated for an arbitrary huge page h, not only for pages 0
    and 1 of the driver.
- Test 3 is stated only for its last migration
  (Translation.MigrateFullAllSet), not as a run of 257 × 515 queries.
  - That lemma takes any full table whose reference bits are all set, and
    any hand.
  - The model does not show that the driver's first 256 pages leave the
    table in that state, nor that they leave the hand at 0.

## Findings

| source | as written | input that shows it | evidently intended | confidence | as-written member | corrected member |
|---|---|---|---|---|---|---|
| footprint_pred.cc:183-197 | line 192 declares a new `int idx`, so the random way is discarded and `idx` stays -1; line 196 then copies a pointer, so way `idx` and way 0 become one entry | driver test 2 (footprint_pred.cc:31-41): five huge pages that share set 1 of a 4-way table; the fifth miss finds no invalid way and writes way -1 (undefined behaviour); earlier misses alias a way with way 0 and lose the old way-0 entry | the comment at line 181: the victim is the first invalid way or a random way in 1 .. fassoc-1; the old way-0 value moves there, and the new entry takes way 0 | high (not executed) | Footprint.MissAsWrittenLosesWayZero | Footprint.InsertMiss |
| footprint_pred.cc:120 | `int tag = get_hugetag(addr)` keeps only the low 32 bits, signed, and the comparison with the 64-bit stored tag sign-extends them | with 4 MiB huge pages, the address 2^53 (huge-page tag 2^31) is migrated with its full tag but never found again by the residency loop; and with huge page 5 resident, huge page 2^32 + 5 (the address (2^32 + 5) * 2^22) is reported resident, so record_access is skipped for it | compare the full 64-bit huge-page tag, as migrate_page stores it | high (not executed) | Translation.TruncatedTagMisses | Translation.Lookup |
