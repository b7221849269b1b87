/** FootprintPred itself: the configuration the constructor derives, the
    predictor state, and `addr_inFastMem`, the one query operation. */
module Predictor {
  import opened Arith
  import opened Codec
  import opened Footprint
  import opened Translation

  /** Queries between two HOTCOLD migrations (`TIMESLICE`). */
  const TIMESLICE: nat := 10000

  /** `Migrate_policy`. */
  datatype MigratePolicy = HotCold | ByFootprint

  /** The constructor's policy choice: exactly "footprint" selects the
      footprint policy, any other string hot/cold. */
  function ParsePolicy(name: string): (p: MigratePolicy)
    ensures p == ByFootprint <==> name == "footprint"
    ensures p == HotCold <==> name != "footprint"
  {
    if name == "footprint" then ByFootprint else HotCold
  }

  /** The geometry and policy fixed at construction: `fpsize` sets of
      `fpassoc` ways, indexed by `lg_fpsize` address bits; huge pages of
      2^`hugebits` bytes; `ram_pages` fast-memory slots. */
  datatype Config = Config(
    sets: nat, lgSets: nat, assoc: nat, hugeBits: nat,
    ramPages: nat, thr: Threshold, policy: MigratePolicy)

  predicate ValidConfig(c: Config)
  {
    && c.sets >= 1 && Pow2(c.lgSets) <= c.sets && c.assoc >= 1
    && ValidBits(c.hugeBits, c.lgSets)
    && c.ramPages >= 1 && c.thr.den > 0
  }

  /** Sub-pages per huge page, 2^(hugebits - 12): the bitmap length. */
  function SubPages(c: Config): (n: nat)
    requires PAGE_BITS <= c.hugeBits
    ensures n >= 1
  {
    Pow2(c.hugeBits - PAGE_BITS)
  }

  /** A huge page is exactly SubPages(c) small pages of 4 KiB. */
  lemma SubPagesCover(c: Config)
    requires PAGE_BITS <= c.hugeBits
    ensures SubPages(c) * 4096 == Pow2(c.hugeBits)
  {
    Pow2Add(c.hugeBits - PAGE_BITS, PAGE_BITS);
    Pow2Values();
  }

  /** The predictor's runtime state. */
  datatype State = State(
    cfg: Config,
    fp: seq<seq<FpEntry>>,
    trans: seq<TransEntry>,
    hand: nat,
    counter: nat,
    mru: Addr)

  /** The shape every reachable state has: tables of the configured size,
      every footprint entry consistent, the hand inside the table, and the
      hot/cold counter below its period. */
  predicate Good(s: State)
  {
    && ValidConfig(s.cfg)
    && |s.fp| == s.cfg.sets
    && (forall i :: 0 <= i < |s.fp| ==>
          |s.fp[i]| == s.cfg.assoc && AllWellFormed(s.fp[i], SubPages(s.cfg)))
    && |s.trans| == s.cfg.ramPages
    && s.hand < s.cfg.ramPages
    && (s.cfg.policy == HotCold ==> s.counter < TIMESLICE)
  }

  /** The geometry the constructor derives (footprint_pred.cc:80-93).
      Sizes are in KB and fsize is the total number of ways, so there are
      fsize / fassoc sets; `(int)log2` is the floor of the logarithm. The
      preconditions are what the source's arithmetic needs: no division by
      zero, at least one set and one fast-memory slot, a huge page of at
      least one 4 KiB sub-page, and shifts below the address width. */
  function Configure(fsize: nat, fassoc: nat, hsize: nat, ramsize: nat, thr: Threshold, mpolicy: string): (c: Config)
    requires fassoc >= 1 && fsize / fassoc >= 1
    requires hsize >= 4 && ramsize / hsize >= 1 && thr.den > 0
    requires FloorLog2(fsize / fassoc) + FloorLog2(hsize) + 10 < ADDR_BITS
    ensures ValidConfig(c)
    ensures c.policy == ByFootprint <==> mpolicy == "footprint"
    ensures c.thr == thr
  {
    var e := FloorLog2(hsize);
    FloorLog2AtLeast(hsize, 2);
    Config(fsize / fassoc, FloorLog2(fsize / fassoc), fassoc, e + 10, ramsize / hsize, thr, ParsePolicy(mpolicy))
  }

  /** The derived set geometry: fsize / fassoc sets of fassoc ways, indexed
      by lgSets bits, the floor of the set count's logarithm. */
  lemma ConfigureSets(fsize: nat, fassoc: nat, hsize: nat, ramsize: nat, thr: Threshold, mpolicy: string)
    requires fassoc >= 1 && fsize / fassoc >= 1
    requires hsize >= 4 && ramsize / hsize >= 1 && thr.den > 0
    requires FloorLog2(fsize / fassoc) + FloorLog2(hsize) + 10 < ADDR_BITS
    ensures var c := Configure(fsize, fassoc, hsize, ramsize, thr, mpolicy);
            && c.sets == fsize / fassoc && c.assoc == fassoc
            && Pow2(c.lgSets) <= c.sets < Pow2(c.lgSets + 1)
  {
    var c := Configure(fsize, fassoc, hsize, ramsize, thr, mpolicy);
    assert c.lgSets == FloorLog2(c.sets);
  }

  /** The derived page geometry: 2^hugeBits is the largest power of two not
      above hsize KB, and fast memory has ramsize / hsize slots. */
  lemma ConfigurePages(fsize: nat, fassoc: nat, hsize: nat, ramsize: nat, thr: Threshold, mpolicy: string)
    requires fassoc >= 1 && fsize / fassoc >= 1
    requires hsize >= 4 && ramsize / hsize >= 1 && thr.den > 0
    requires FloorLog2(fsize / fassoc) + FloorLog2(hsize) + 10 < ADDR_BITS
    ensures var c := Configure(fsize, fassoc, hsize, ramsize, thr, mpolicy);
            && Pow2(c.hugeBits) <= hsize * 1024 < Pow2(c.hugeBits + 1)
            && c.ramPages == ramsize / hsize
  {
    var c := Configure(fsize, fassoc, hsize, ramsize, thr, mpolicy);
    var e := FloorLog2(hsize);
    assert c.hugeBits == e + 10;
    KilobyteLog(hsize, e);
  }

  /** Scaling KB to bytes adds 10 to the logarithm. */
  lemma KilobyteLog(n: nat, e: nat)
    requires Pow2(e) <= n < Pow2(e + 1)
    ensures Pow2(e + 10) <= n * 1024 < Pow2(e + 11)
  {
    Pow2Add(e, 10);
    Pow2Add(e + 1, 10);
    assert Pow2(10) == 1024 by { Pow2Values(); }
    var p, p1 := Pow2(e), Pow2(e + 1);
    assert p * 1024 <= n * 1024;
    assert n * 1024 < p1 * 1024;
  }

  /** The constructor (footprint_pred.cc:80-116, with init_fp_entry and
      init_trans_entry at 249-269): every footprint entry and every
      translation slot starts empty, the hand and the counter at 0. `mru` is
      left uninitialised by the source and is never read before the first
      query writes it; it starts at 0 here. */
  function New(fsize: nat, fassoc: nat, hsize: nat, ramsize: nat, thr: Threshold, mpolicy: string): (s: State)
    requires fassoc >= 1 && fsize / fassoc >= 1
    requires hsize >= 4 && ramsize / hsize >= 1 && thr.den > 0
    requires FloorLog2(fsize / fassoc) + FloorLog2(hsize) + 10 < ADDR_BITS
    ensures Good(s) && s.cfg == Configure(fsize, fassoc, hsize, ramsize, thr, mpolicy)
    ensures s.hand == 0 && s.counter == 0
    ensures forall i, j :: 0 <= i < |s.fp| && 0 <= j < |s.fp[i]| ==>
              s.fp[i][j] == InitEntry(SubPages(s.cfg))
    ensures forall i :: 0 <= i < |s.trans| ==> s.trans[i] == InitTransEntry()
  {
    var c := Configure(fsize, fassoc, hsize, ramsize, thr, mpolicy);
    var row := seq(c.assoc, _ => InitEntry(SubPages(c)));
    State(c, seq(c.sets, _ => row), seq(c.ramPages, _ => InitTransEntry()), 0, 0, 0)
  }

  /** With a power-of-two number of sets, lgSets is exactly its logarithm:
      no set is left unaddressed by the index bits. */
  lemma NewExactSets(fsize: nat, fassoc: nat, hsize: nat, ramsize: nat, thr: Threshold, mpolicy: string,
                     lgSets: nat)
    requires fassoc >= 1 && fsize / fassoc >= 1
    requires hsize >= 4 && ramsize / hsize >= 1 && thr.den > 0
    requires FloorLog2(fsize / fassoc) + FloorLog2(hsize) + 10 < ADDR_BITS
    requires fsize / fassoc == Pow2(lgSets)
    ensures Configure(fsize, fassoc, hsize, ramsize, thr, mpolicy).lgSets == lgSets
  {
    FloorLog2OfPow2(lgSets);
  }

  /** With a power-of-two huge page of hsize KB, a huge page is exactly
      hsize KB and holds hsize / 4 sub-pages of 4 KiB. */
  lemma NewExactHugePages(fsize: nat, fassoc: nat, hsize: nat, ramsize: nat, thr: Threshold, mpolicy: string,
                          lgHuge: nat)
    requires fassoc >= 1 && fsize / fassoc >= 1
    requires hsize >= 4 && ramsize / hsize >= 1 && thr.den > 0
    requires FloorLog2(fsize / fassoc) + FloorLog2(hsize) + 10 < ADDR_BITS
    requires hsize == Pow2(lgHuge)
    ensures var c := Configure(fsize, fassoc, hsize, ramsize, thr, mpolicy);
            && c.hugeBits == lgHuge + 10
            && SubPages(c) == Pow2(lgHuge - 2) && Pow2(lgHuge - 2) * 4 == hsize
  {
    var c := Configure(fsize, fassoc, hsize, ramsize, thr, mpolicy);
    assert c.hugeBits == FloorLog2(hsize) + 10;
    HugePageLog(hsize, lgHuge);
  }

  lemma HugePageLog(hsize: nat, lgHuge: nat)
    requires hsize >= 4 && hsize == Pow2(lgHuge)
    ensures FloorLog2(hsize) == lgHuge && lgHuge >= 2
    ensures Pow2(lgHuge - 2) * 4 == hsize
  {
    FloorLog2OfPow2(lgHuge);
    FloorLog2AtLeast(hsize, 2);
    var k: nat := lgHuge - 2;
    Pow2Add(2, k);
    assert Pow2(2) == 4;
  }

  /** Writing a consistent row of the right width back into the table of
      a good state gives a good state. */
  lemma RowWriteBack(s: State, idx: nat, row: seq<FpEntry>)
    requires Good(s) && idx < |s.fp|
    requires |row| == s.cfg.assoc && AllWellFormed(row, SubPages(s.cfg))
    ensures Good(s.(fp := s.fp[idx := row]))
  {
  }

  /** The outcome of one query: the next state, the answer, and whether
      `migrate_page` ran during the call. */
  datatype Step = Step(state: State, hit: bool, migrated: bool)

  /** `addr_inFastMem` (footprint_pred.cc:118-144). `w` is the way the
      random generator would return on a footprint miss with no free way.
      The residency check compares full 64-bit huge-page tags; the source
      compares a truncated one (see Translation.LookupAsWritten). */
  function Query(s: State, addr: Addr, w: nat): (r: Step)
    requires Good(s) && ValidDraw(s.cfg.assoc, w)
    ensures Good(r.state) && r.state.cfg == s.cfg && r.state.mru == addr
    // the answer is the residency BEFORE anything this call migrates
    ensures r.hit <==> Resident(s.trans, HugeTag(addr, s.cfg.hugeBits))
  {
    var c := s.cfg;
    var h := HugeTag(addr, c.hugeBits);
    var probe := Lookup(s.trans, h);
    var counter := s.counter + 1;
    match c.policy
    case ByFootprint =>
      if probe.hit then
        Step(s.(trans := probe.table, counter := counter, mru := addr), true, false)
      else
        var idx := Index(addr, c.hugeBits, c.lgSets);
        var acc := RecordAccess(s.fp[idx], Tag(addr, c.hugeBits, c.lgSets),
                                SmallPage(addr, c.hugeBits), SubPages(c), c.thr, w);
        var fp := s.fp[idx := acc.row];
        RowWriteBack(s, idx, acc.row);
        if acc.migrate then
          var m := Migrate(probe.table, s.hand, h);
          Step(State(c, fp, m.table, m.hand, counter, addr), false, true)
        else
          Step(State(c, fp, probe.table, s.hand, counter, addr), false, false)
    case HotCold =>
      if counter == TIMESLICE then
        var m := Migrate(probe.table, s.hand, h);
        Step(State(c, s.fp, m.table, m.hand, 0, addr), probe.hit, true)
      else
        Step(s.(trans := probe.table, counter := counter, mru := addr), probe.hit, false)
  }

  /** Hot/cold (footprint_pred.cc:136-141): the footprint table is never
      touched, the counter wraps at TIMESLICE, and exactly then the queried
      page is migrated, whether or not it was already resident. */
  lemma QueryHotCold(s: State, addr: Addr, w: nat)
    requires Good(s) && ValidDraw(s.cfg.assoc, w) && s.cfg.policy == HotCold
    ensures var r := Query(s, addr, w);
            var h := HugeTag(addr, s.cfg.hugeBits);
            var probe := Lookup(s.trans, h);
            && r.state.fp == s.fp
            && (r.migrated <==> s.counter + 1 == TIMESLICE)
            && r.state.counter == (s.counter + 1) % TIMESLICE
            && (r.migrated ==>
                  var m := Migrate(probe.table, s.hand, h);
                  r.state.trans == m.table && r.state.hand == m.hand)
            && (!r.migrated ==> r.state.trans == probe.table && r.state.hand == s.hand)
  {
  }

  /** Footprint policy, page resident: a hit that only sets the reference
      bits of the matching slots; the footprint table, the hand and every
      other slot stay as they were, and nothing is migrated. */
  lemma QueryFootprintHit(s: State, addr: Addr, w: nat)
    requires Good(s) && ValidDraw(s.cfg.assoc, w) && s.cfg.policy == ByFootprint
    requires Resident(s.trans, HugeTag(addr, s.cfg.hugeBits))
    ensures var r := Query(s, addr, w);
            var h := HugeTag(addr, s.cfg.hugeBits);
            && r.hit && !r.migrated
            && r.state.fp == s.fp && r.state.hand == s.hand
            && r.state.counter == s.counter + 1
            && (forall i :: 0 <= i < |s.trans| ==>
                  r.state.trans[i] == (if Resides(s.trans[i], h) then s.trans[i].(clockSet := true) else s.trans[i]))
  {
  }

  /** Footprint policy, page not resident: the access is recorded in the one
      set the address indexes, all other sets are untouched, and the
      residency table changes only if record_access migrates the page. */
  lemma QueryFootprintMiss(s: State, addr: Addr, w: nat)
    requires Good(s) && ValidDraw(s.cfg.assoc, w) && s.cfg.policy == ByFootprint
    requires !Resident(s.trans, HugeTag(addr, s.cfg.hugeBits))
    ensures var r := Query(s, addr, w);
            var c := s.cfg;
            var h := HugeTag(addr, c.hugeBits);
            var idx := Index(addr, c.hugeBits, c.lgSets);
            var acc := RecordAccess(s.fp[idx], Tag(addr, c.hugeBits, c.lgSets),
                                    SmallPage(addr, c.hugeBits), SubPages(c), c.thr, w);
            && !r.hit
            && r.state.counter == s.counter + 1
            && |r.state.fp| == |s.fp| && r.state.fp[idx] == acc.row
            && (forall i :: 0 <= i < |s.fp| && i != idx ==> r.state.fp[i] == s.fp[i])
            && (r.migrated <==> acc.migrate)
            && (!r.migrated ==> r.state.trans == s.trans && r.state.hand == s.hand)
            && (r.migrated ==>
                  var m := Migrate(s.trans, s.hand, h);
                  && r.state.trans == m.table && r.state.hand == m.hand
                  && Resident(r.state.trans, h))
  {
    var h := HugeTag(addr, s.cfg.hugeBits);
    LookupMissUnchanged(s.trans, h);
    MigratedPageHits(s.trans, s.hand, h);
  }

  /** Querying an already-resident page again under the footprint policy
      changes nothing but the access counter: the reference bits it sets
      are already set. */
  lemma RepeatHitIsIdempotent(s: State, addr: Addr, w: nat, w': nat)
    requires Good(s) && ValidDraw(s.cfg.assoc, w) && ValidDraw(s.cfg.assoc, w')
    requires s.cfg.policy == ByFootprint
    requires Resident(s.trans, HugeTag(addr, s.cfg.hugeBits))
    ensures var s1 := Query(s, addr, w).state;
            var r2 := Query(s1, addr, w');
            r2.hit && r2.state == s1.(counter := s1.counter + 1)
  {
    var h := HugeTag(addr, s.cfg.hugeBits);
    LookupKeepsResidency(s.trans, h, h);
    LookupIdempotent(s.trans, h);
  }

  /** Under the footprint policy a page is migrated only after its lookup
      missed, so no huge page ever occupies two slots; and no set ever holds
      two valid entries for one tag. (Not so under hot/cold, see
      HotColdCanDuplicate.) */
  lemma FootprintQueryKeepsDistinct(s: State, addr: Addr, w: nat)
    requires Good(s) && ValidDraw(s.cfg.assoc, w) && s.cfg.policy == ByFootprint
    requires DistinctValid(s.trans)
    requires forall i :: 0 <= i < |s.fp| ==> DistinctTags(s.fp[i])
    ensures DistinctValid(Query(s, addr, w).state.trans)
    ensures forall i :: 0 <= i < |s.fp| ==> DistinctTags(Query(s, addr, w).state.fp[i])
  {
    var c := s.cfg;
    var h := HugeTag(addr, c.hugeBits);
    if Resident(s.trans, h) {
      QueryFootprintHit(s, addr, w);
      LookupKeepsResidency(s.trans, h, h);
    } else {
      QueryFootprintMiss(s, addr, w);
      var idx := Index(addr, c.hugeBits, c.lgSets);
      RecordAccessKeepsTagsDistinct(s.fp[idx], Tag(addr, c.hugeBits, c.lgSets),
                                    SmallPage(addr, c.hugeBits), SubPages(c), c.thr, w);
      MigrateKeepsDistinct(s.trans, s.hand, h);
    }
  }

  /** Under hot/cold the periodic migration does not check residency: when
      the query that ends a time slice is for a page already in fast memory
      and a slot is still free, the page gets a second slot. */
  lemma HotColdCanDuplicate(s: State, addr: Addr, w: nat)
    requires Good(s) && ValidDraw(s.cfg.assoc, w) && s.cfg.policy == HotCold
    requires s.counter == TIMESLICE - 1
    requires Resident(s.trans, HugeTag(addr, s.cfg.hugeBits))
    requires exists i :: 0 <= i < |s.trans| && !s.trans[i].valid
    ensures Query(s, addr, w).migrated
    ensures !DistinctValid(Query(s, addr, w).state.trans)
  {
    var h := HugeTag(addr, s.cfg.hugeBits);
    QueryHotCold(s, addr, w);
    var probe := Lookup(s.trans, h);
    var j :| 0 <= j < |s.trans| && Resides(s.trans[j], h);
    var i :| 0 <= i < |s.trans| && !s.trans[i].valid;
    assert !probe.table[i].valid;
    var m := Migrate(probe.table, s.hand, h);
    assert !probe.table[m.victim].valid;
    assert m.table[j] == probe.table[j];
    var t := Query(s, addr, w).state.trans;
    assert t[j].valid && t[j].tag == h && t[m.victim].valid && t[m.victim].tag == h;
    if j < m.victim {
      assert !DistinctValid(t);
    } else {
      assert !DistinctValid(t);
    }
  }

  /** The outcome of a sequence of queries: the final state, each query's
      answer, and how many of them migrated a page. */
  datatype Trace = Trace(state: State, hits: seq<bool>, migrations: nat)

  predicate ValidDraws(c: Config, draws: seq<nat>)
  {
    forall w :: w in draws ==> ValidDraw(c.assoc, w)
  }

  /** The queries `addrs` issued one after another, the i-th with random
      way draws[i]. */
  function Run(s: State, addrs: seq<Addr>, draws: seq<nat>): (r: Trace)
    requires Good(s) && |draws| == |addrs| && ValidDraws(s.cfg, draws)
    ensures Good(r.state) && r.state.cfg == s.cfg
    ensures |r.hits| == |addrs| && r.migrations <= |addrs|
    decreases |addrs|
  {
    if |addrs| == 0 then Trace(s, [], 0)
    else
      var q := Query(s, addrs[0], draws[0]);
      var rest := Run(q.state, addrs[1..], draws[1..]);
      Trace(rest.state, [q.hit] + rest.hits, (if q.migrated then 1 else 0) + rest.migrations)
  }

  /** No huge page occupies two slots, and no set holds two valid entries
      for one tag. */
  predicate Distinct(s: State)
  {
    && DistinctValid(s.trans)
    && forall i :: 0 <= i < |s.fp| ==> DistinctTags(s.fp[i])
  }

  /** The constructed state is distinct: every way and every slot is
      invalid. */
  lemma NewIsDistinct(fsize: nat, fassoc: nat, hsize: nat, ramsize: nat, thr: Threshold, mpolicy: string)
    requires fassoc >= 1 && fsize / fassoc >= 1
    requires hsize >= 4 && ramsize / hsize >= 1 && thr.den > 0
    requires FloorLog2(fsize / fassoc) + FloorLog2(hsize) + 10 < ADDR_BITS
    ensures Distinct(New(fsize, fassoc, hsize, ramsize, thr, mpolicy))
  {
    var s := New(fsize, fassoc, hsize, ramsize, thr, mpolicy);
    forall i | 0 <= i < |s.fp| ensures DistinctTags(s.fp[i]) {
      assert forall j :: 0 <= j < |s.fp[i]| ==> !s.fp[i][j].valid;
    }
  }

  /** Under the footprint policy every run of queries keeps the state
      distinct, so a constructed footprint predictor never holds a page
      twice. */
  lemma {:induction false} FootprintRunKeepsDistinct(s: State, addrs: seq<Addr>, draws: seq<nat>)
    requires Good(s) && |draws| == |addrs| && ValidDraws(s.cfg, draws)
    requires s.cfg.policy == ByFootprint && Distinct(s)
    ensures Distinct(Run(s, addrs, draws).state)
    decreases |addrs|
  {
    if |addrs| > 0 {
      FootprintQueryKeepsDistinct(s, addrs[0], draws[0]);
      var q := Query(s, addrs[0], draws[0]).state;
      FootprintRunKeepsDistinct(q, addrs[1..], draws[1..]);
    }
  }

  /** A constructed footprint predictor, after any run of queries, holds
      no huge page in two slots and no tag twice in one set. */
  lemma FootprintNeverDuplicates(fsize: nat, fassoc: nat, hsize: nat, ramsize: nat, thr: Threshold,
                                 addrs: seq<Addr>, draws: seq<nat>)
    requires fassoc >= 1 && fsize / fassoc >= 1
    requires hsize >= 4 && ramsize / hsize >= 1 && thr.den > 0
    requires FloorLog2(fsize / fassoc) + FloorLog2(hsize) + 10 < ADDR_BITS
    requires |draws| == |addrs|
    requires ValidDraws(Configure(fsize, fassoc, hsize, ramsize, thr, "footprint"), draws)
    ensures Distinct(Run(New(fsize, fassoc, hsize, ramsize, thr, "footprint"), addrs, draws).state)
  {
    NewIsDistinct(fsize, fassoc, hsize, ramsize, thr, "footprint");
    FootprintRunKeepsDistinct(New(fsize, fassoc, hsize, ramsize, thr, "footprint"), addrs, draws);
  }

  /** Hot/cold from counter c: n queries migrate (c + n) div TIMESLICE
      times and leave the counter at (c + n) mod TIMESLICE, whatever the
      addresses. */
  lemma {:induction false} HotColdMigrationCount(s: State, addrs: seq<Addr>, draws: seq<nat>)
    requires Good(s) && |draws| == |addrs| && ValidDraws(s.cfg, draws)
    requires s.cfg.policy == HotCold
    ensures Run(s, addrs, draws).migrations == (s.counter + |addrs|) / TIMESLICE
    ensures Run(s, addrs, draws).state.counter == (s.counter + |addrs|) % TIMESLICE
    ensures Run(s, addrs, draws).state.fp == s.fp
    decreases |addrs|
  {
    if |addrs| > 0 {
      QueryHotCold(s, addrs[0], draws[0]);
      var q := Query(s, addrs[0], draws[0]);
      HotColdMigrationCount(q.state, addrs[1..], draws[1..]);
      var n := |addrs|;
      if s.counter + 1 == TIMESLICE {
        assert q.state.counter == 0;
        DivModUnique(s.counter + n, TIMESLICE, 1 + (n - 1) / TIMESLICE, (n - 1) % TIMESLICE);
      } else {
        assert q.state.counter == s.counter + 1;
      }
    }
  }
}
