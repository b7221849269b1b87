/** The scenarios the source's own driver walks through, stated for the
    model: touching the sub-pages of one huge page in order until the
    footprint crosses the threshold, and the hot/cold migration count over
    a long run. */
module Scenarios {
  import opened Arith
  import opened Codec
  import opened Footprint
  import opened Translation
  import opened Predictor

  /** The first addresses of sub-pages lo .. hi-1 of huge page h, in order. */
  function PageAddrs(h: nat, lo: nat, hi: nat, hugeBits: nat): (r: seq<Addr>)
    requires PAGE_BITS <= hugeBits <= ADDR_BITS
    requires h < Pow2(ADDR_BITS - hugeBits) && lo <= hi <= Pow2(hugeBits - PAGE_BITS)
    ensures |r| == hi - lo
    ensures forall i :: 0 <= i < |r| ==>
              && HugeTag(r[i], hugeBits) == h && SmallPage(r[i], hugeBits) == lo + i
              && r[i] % Pow2(PAGE_BITS) == 0
    decreases hi - lo
  {
    if lo == hi then [] else [SubPageAddr(h, lo, hugeBits)] + PageAddrs(h, lo + 1, hi, hugeBits)
  }

  /** Huge page h is tracked by its footprint set with sub-pages 0 .. m-1
      touched, and it is not yet in fast memory. */
  predicate Tracking(s: State, h: nat, m: nat)
  {
    && Good(s) && s.cfg.policy == ByFootprint
    && h < Pow2(ADDR_BITS - s.cfg.hugeBits)
    && !Resident(s.trans, h)
    && h % Pow2(s.cfg.lgSets) < |s.fp|
    && TracksPrefix(s.fp[h % Pow2(s.cfg.lgSets)], Shr(h, s.cfg.lgSets), m, SubPages(s.cfg))
  }

  /** The address of sub-page k of huge page h lands in h's footprint set
      with h's footprint tag. */
  lemma SubPageAddrSet(h: nat, k: nat, c: Config)
    requires ValidConfig(c)
    requires h < Pow2(ADDR_BITS - c.hugeBits) && k < SubPages(c)
    ensures Index(SubPageAddr(h, k, c.hugeBits), c.hugeBits, c.lgSets) == h % Pow2(c.lgSets)
    ensures Tag(SubPageAddr(h, k, c.hugeBits), c.hugeBits, c.lgSets) == Shr(h, c.lgSets)
  {
    IndexTagOfHugeTag(SubPageAddr(h, k, c.hugeBits), c.hugeBits, c.lgSets);
  }

  /** Huge page h is not in fast memory and its footprint set holds no
      entry for it: the state before its first touch. */
  predicate Fresh(s: State, h: nat)
  {
    && Good(s) && s.cfg.policy == ByFootprint
    && h < Pow2(ADDR_BITS - s.cfg.hugeBits)
    && !Resident(s.trans, h)
    && h % Pow2(s.cfg.lgSets) < |s.fp|
    && FindWay(s.fp[h % Pow2(s.cfg.lgSets)], Shr(h, s.cfg.lgSets)).None?
  }

  /** The first touch of a huge page its set does not know: a miss that
      starts tracking the page and migrates nothing. */
  lemma FirstTouch(s: State, h: nat, w: nat)
    requires Fresh(s, h) && ValidDraw(s.cfg.assoc, w)
    ensures var r := Query(s, SubPageAddr(h, 0, s.cfg.hugeBits), w);
            && !r.hit && !r.migrated && Framed(s, r.state, h) && Tracking(r.state, h, 1)
            && r.state.fp[h % Pow2(s.cfg.lgSets)]
               == InsertMiss(s.fp[h % Pow2(s.cfg.lgSets)], Shr(h, s.cfg.lgSets), 0, SubPages(s.cfg), w)
  {
    var c := s.cfg;
    var a := SubPageAddr(h, 0, c.hugeBits);
    SubPageAddrSet(h, 0, c);
    QueryFootprintMiss(s, a, w);
    TouchFirst(s.fp[h % Pow2(c.lgSets)], Shr(h, c.lgSets), SubPages(c), c.thr, w);
  }

  /** From s to s', nothing outside huge page h's footprint set changed:
      same configuration, residency table and hand, and every other
      footprint set as it was. */
  predicate Framed(s: State, s': State, h: nat)
  {
    && s'.cfg == s.cfg && s'.trans == s.trans && s'.hand == s.hand
    && |s'.fp| == |s.fp|
    && forall i :: 0 <= i < |s.fp| && i != h % Pow2(s.cfg.lgSets) ==> s'.fp[i] == s.fp[i]
  }

  /** Row row' keeps every way of row except way 0. */
  predicate KeepsOtherWays(row: seq<FpEntry>, row': seq<FpEntry>)
  {
    |row'| == |row| && forall j :: 0 < j < |row| ==> row'[j] == row[j]
  }

  /** From s to s', only huge page h's footprint moved on (to n touched
      sub-pages): nothing outside h's set changed, and inside it only way
      0, which tracks h. */
  predicate Quiet(s: State, s': State, h: nat, n: nat)
  {
    && Framed(s, s', h)
    && Tracking(s', h, n)
    && KeepsOtherWays(s.fp[h % Pow2(s.cfg.lgSets)], s'.fp[h % Pow2(s.cfg.lgSets)])
  }

  lemma QuietTrans(s: State, s': State, s'': State, h: nat, m: nat, n: nat)
    requires Quiet(s, s', h, m) && Quiet(s', s'', h, n)
    ensures Quiet(s, s'', h, n)
  {
  }

  /** The query for sub-page m of huge page h, while h is tracked with m
      sub-pages touched. */
  function Touch(s: State, h: nat, m: nat, w: nat): Step
    requires Tracking(s, h, m) && m < SubPages(s.cfg) && ValidDraw(s.cfg.assoc, w)
  {
    Query(s, SubPageAddr(h, m, s.cfg.hugeBits), w)
  }

  /** One touch below the threshold: a miss that counts sub-page m and
      changes nothing else. */
  lemma TouchStep(s: State, h: nat, m: nat, w: nat)
    requires Tracking(s, h, m) && m < SubPages(s.cfg) && ValidDraw(s.cfg.assoc, w)
    requires !Crosses(m + 1, SubPages(s.cfg), s.cfg.thr)
    ensures var r := Touch(s, h, m, w);
            !r.hit && !r.migrated && Quiet(s, r.state, h, m + 1)
  {
    var c := s.cfg;
    var a := SubPageAddr(h, m, c.hugeBits);
    SubPageAddrSet(h, m, c);
    QueryFootprintMiss(s, a, w);
    TouchNext(s.fp[h % Pow2(c.lgSets)], Shr(h, c.lgSets), m, SubPages(c), c.thr, w);
  }

  /** The first query of a run misses, migrates nothing and leaves s1
      behind; the rest of the run starts from s1. */
  predicate MissesFirst(s: State, addrs: seq<Addr>, draws: seq<nat>, s1: State)
    requires Good(s) && Good(s1) && s1.cfg == s.cfg
    requires |addrs| >= 1 && |draws| == |addrs| && ValidDraws(s.cfg, draws)
  {
    var rest := Run(s1, addrs[1..], draws[1..]);
    Run(s, addrs, draws) == Trace(rest.state, [false] + rest.hits, rest.migrations)
  }

  /** The first step of a touch run below the threshold, with the state
      after it named: the query misses and moves only h's footprint on. */
  lemma TouchHead(s: State, h: nat, m: nat, n: nat, draws: seq<nat>) returns (s1: State)
    requires Tracking(s, h, m) && m < n <= SubPages(s.cfg)
    requires !Crosses(m + 1, SubPages(s.cfg), s.cfg.thr)
    requires |draws| == n - m && ValidDraws(s.cfg, draws)
    ensures Quiet(s, s1, h, m + 1)
    ensures PageAddrs(h, m, n, s.cfg.hugeBits)[1..] == PageAddrs(h, m + 1, n, s.cfg.hugeBits)
    ensures MissesFirst(s, PageAddrs(h, m, n, s.cfg.hugeBits), draws, s1)
  {
    var addrs := PageAddrs(h, m, n, s.cfg.hugeBits);
    assert addrs[0] == SubPageAddr(h, m, s.cfg.hugeBits);
    assert addrs[1..] == PageAddrs(h, m + 1, n, s.cfg.hugeBits);
    TouchStep(s, h, m, draws[0]);
    s1 := Query(s, addrs[0], draws[0]).state;
  }

  /** A run below the threshold left only h's footprint moved on, to n
      touched sub-pages: no query hit and nothing was migrated. */
  predicate QuietRun(s: State, t: Trace, h: nat, n: nat)
  {
    t.migrations == 0 && true !in t.hits && Quiet(s, t.state, h, n)
  }

  lemma QuietRunCons(s: State, s1: State, rest: Trace, h: nat, m: nat, n: nat)
    requires Quiet(s, s1, h, m) && QuietRun(s1, rest, h, n)
    ensures QuietRun(s, Trace(rest.state, [false] + rest.hits, rest.migrations), h, n)
  {
    QuietTrans(s, s1, rest.state, h, m, n);
  }

  /** Touching sub-pages m .. n-1 of a tracked huge page in order, without
      reaching the threshold: every query misses, nothing is migrated, and
      only the page's own footprint changes, to n touched sub-pages. */
  lemma {:induction false} TouchRun(s: State, h: nat, m: nat, n: nat, draws: seq<nat>)
    requires Tracking(s, h, m) && m <= n <= SubPages(s.cfg)
    requires !Crosses(n, SubPages(s.cfg), s.cfg.thr)
    requires |draws| == n - m && ValidDraws(s.cfg, draws)
    ensures QuietRun(s, Run(s, PageAddrs(h, m, n, s.cfg.hugeBits), draws), h, n)
    decreases n - m
  {
    if m < n {
      CrossesMonotone(m + 1, n, SubPages(s.cfg), s.cfg.thr);
      var s1 := TouchHead(s, h, m, n, draws);
      TouchRun(s1, h, m + 1, n, draws[1..]);
      QuietRunCons(s, s1, Run(s1, PageAddrs(h, m + 1, n, s.cfg.hugeBits), draws[1..]), h, m + 1, n);
    } else {
      QuietRunEmpty(s, h, n, draws);
    }
  }

  lemma QuietRunEmpty(s: State, h: nat, n: nat, draws: seq<nat>)
    requires Tracking(s, h, n) && n <= SubPages(s.cfg) && draws == []
    ensures QuietRun(s, Run(s, PageAddrs(h, n, n, s.cfg.hugeBits), draws), h, n)
  {
    assert PageAddrs(h, n, n, s.cfg.hugeBits) == [];
  }

  /** The touch that crosses the threshold: the query still misses (the
      answer is the residency before the call), the page is migrated, and
      from then on it is resident. */
  lemma TouchCrosses(s: State, h: nat, m: nat, w: nat)
    requires Tracking(s, h, m) && m < SubPages(s.cfg) && ValidDraw(s.cfg.assoc, w)
    requires Crosses(m + 1, SubPages(s.cfg), s.cfg.thr)
    ensures var r := Touch(s, h, m, w);
            && !r.hit && r.migrated && Resident(r.state.trans, h)
  {
    var c := s.cfg;
    var a := SubPageAddr(h, m, c.hugeBits);
    SubPageAddrSet(h, m, c);
    QueryFootprintMiss(s, a, w);
    TouchNext(s.fp[h % Pow2(c.lgSets)], Shr(h, c.lgSets), m, SubPages(c), c.thr, w);
  }

  /** A run that crossed the threshold: no query hit, exactly one
      migration, and huge page h ended up in fast memory. */
  predicate Crossed(t: Trace, h: nat)
  {
    t.migrations == 1 && true !in t.hits && Resident(t.state.trans, h)
  }

  /** The crossing touch as a one-query run. */
  lemma CrossLast(s: State, h: nat, m: nat, draws: seq<nat>)
    requires Tracking(s, h, m) && m < SubPages(s.cfg)
    requires Crosses(m + 1, SubPages(s.cfg), s.cfg.thr)
    requires |draws| == 1 && ValidDraws(s.cfg, draws)
    ensures Crossed(Run(s, PageAddrs(h, m, m + 1, s.cfg.hugeBits), draws), h)
  {
    var a := SubPageAddr(h, m, s.cfg.hugeBits);
    assert PageAddrs(h, m, m + 1, s.cfg.hugeBits) == [a];
    TouchCrosses(s, h, m, draws[0]);
    var q := Query(s, a, draws[0]);
    assert Run(q.state, [], draws[1..]) == Trace(q.state, [], 0);
  }

  /** Touching sub-pages m .. n-1 of a tracked huge page when the n-th
      touched sub-page is the first to cross the threshold: every query
      misses, exactly one migration happens (on the last), and the page
      ends up resident in fast memory. */
  lemma {:induction false} CrossRun(s: State, h: nat, m: nat, n: nat, draws: seq<nat>)
    requires Tracking(s, h, m) && m < n <= SubPages(s.cfg)
    requires !Crosses(n - 1, SubPages(s.cfg), s.cfg.thr) && Crosses(n, SubPages(s.cfg), s.cfg.thr)
    requires |draws| == n - m && ValidDraws(s.cfg, draws)
    ensures Crossed(Run(s, PageAddrs(h, m, n, s.cfg.hugeBits), draws), h)
    decreases n - m
  {
    if m + 1 == n {
      CrossLast(s, h, m, draws);
    } else {
      CrossesMonotone(m + 1, n - 1, SubPages(s.cfg), s.cfg.thr);
      var s1 := TouchHead(s, h, m, n, draws);
      CrossRun(s1, h, m + 1, n, draws[1..]);
    }
  }

  /** The first step of a run over a huge page its footprint set does not
      know yet, with the state after it named. */
  lemma FirstHead(s: State, h: nat, n: nat, draws: seq<nat>) returns (s1: State)
    requires Fresh(s, h)
    requires 1 <= n <= SubPages(s.cfg)
    requires |draws| == n && ValidDraws(s.cfg, draws)
    ensures Tracking(s1, h, 1) && Framed(s, s1, h)
    ensures s1.fp[h % Pow2(s.cfg.lgSets)]
            == InsertMiss(s.fp[h % Pow2(s.cfg.lgSets)], Shr(h, s.cfg.lgSets), 0, SubPages(s.cfg), draws[0])
    ensures PageAddrs(h, 0, n, s.cfg.hugeBits)[1..] == PageAddrs(h, 1, n, s.cfg.hugeBits)
    ensures MissesFirst(s, PageAddrs(h, 0, n, s.cfg.hugeBits), draws, s1)
  {
    var addrs := PageAddrs(h, 0, n, s.cfg.hugeBits);
    assert addrs[0] == SubPageAddr(h, 0, s.cfg.hugeBits);
    assert addrs[1..] == PageAddrs(h, 1, n, s.cfg.hugeBits);
    FirstTouch(s, h, draws[0]);
    s1 := Query(s, addrs[0], draws[0]).state;
  }

  /** A run from s, in which h was fresh, that stayed below the threshold:
      no query hit and nothing was migrated; outside h's set nothing
      changed; h's footprint counts n touched sub-pages at way 0; and the
      other ways of h's set are those the first miss left, which moved the
      old way 0 to the victim of draw w. */
  predicate Counted(s: State, t: Trace, h: nat, n: nat, w: nat)
  {
    && t.migrations == 0 && true !in t.hits
    && Fresh(s, h) && ValidDraw(s.cfg.assoc, w)
    && Framed(s, t.state, h)
    && Tracking(t.state, h, n)
    && KeepsOtherWays(InsertMiss(s.fp[h % Pow2(s.cfg.lgSets)], Shr(h, s.cfg.lgSets), 0, SubPages(s.cfg), w),
                      t.state.fp[h % Pow2(s.cfg.lgSets)])
  }

  /** Touching sub-pages 0 .. n-1 of a fresh huge page in order, below
      the threshold: every query misses, nothing is migrated, and the
      footprint tracks the n touched sub-pages; apart from the first
      miss's insertion nothing else changes. */
  lemma FreshTouchRun(s: State, h: nat, n: nat, draws: seq<nat>)
    requires Fresh(s, h) && 1 <= n <= SubPages(s.cfg)
    requires !Crosses(n, SubPages(s.cfg), s.cfg.thr)
    requires |draws| == n && ValidDraws(s.cfg, draws)
    ensures Counted(s, Run(s, PageAddrs(h, 0, n, s.cfg.hugeBits), draws), h, n, draws[0])
  {
    var s1 := FirstHead(s, h, n, draws);
    TouchRun(s1, h, 1, n, draws[1..]);
  }

  /** Touching sub-pages 0 .. n-1 of a fresh huge page in order, where the
      n-th touched sub-page is the first to cross the threshold: the page
      is migrated exactly once, on the last touch, and every later access
      to any of its sub-pages hits. */
  lemma FreshCrossRun(s: State, h: nat, n: nat, draws: seq<nat>)
    requires Fresh(s, h) && 1 < n <= SubPages(s.cfg)
    requires !Crosses(n - 1, SubPages(s.cfg), s.cfg.thr) && Crosses(n, SubPages(s.cfg), s.cfg.thr)
    requires |draws| == n && ValidDraws(s.cfg, draws)
    ensures Crossed(Run(s, PageAddrs(h, 0, n, s.cfg.hugeBits), draws), h)
  {
    var s1 := FirstHead(s, h, n, draws);
    CrossRun(s1, h, 1, n, draws[1..]);
  }

  /** A freshly constructed footprint predictor has never seen any huge
      page. */
  lemma NewIsFresh(fsize: nat, fassoc: nat, hsize: nat, ramsize: nat, thr: Threshold, h: nat)
    requires fassoc >= 1 && fsize / fassoc >= 1
    requires hsize >= 4 && ramsize / hsize >= 1 && thr.den > 0
    requires FloorLog2(fsize / fassoc) + FloorLog2(hsize) + 10 < ADDR_BITS
    requires h < Pow2(ADDR_BITS - Configure(fsize, fassoc, hsize, ramsize, thr, "footprint").hugeBits)
    ensures Fresh(New(fsize, fassoc, hsize, ramsize, thr, "footprint"), h)
  {
    var s := New(fsize, fassoc, hsize, ramsize, thr, "footprint");
    var i := h % Pow2(s.cfg.lgSets);
    assert i < |s.fp|;
    assert forall j :: 0 <= j < |s.fp[i]| ==> !s.fp[i][j].valid;
    assert forall j :: 0 <= j < |s.trans| ==> !s.trans[j].valid;
  }

  /** The geometry of the first driver scenario: 2048 direct-mapped
      footprint sets, 4 MiB huge pages of 1024 sub-pages, threshold 1/2. */
  lemma TestOneGeometry()
    ensures FloorLog2(2048) == 11 && FloorLog2(4096) == 12
    ensures var c := Configure(2048, 1, 4096, 1024 * 1024, Threshold(1, 2), "footprint");
            && c.sets == 2048 && c.lgSets == 11 && c.assoc == 1 && c.ramPages == 256
            && c.hugeBits == 22 && SubPages(c) == 1024
  {
    Pow2Values();
    FloorLog2OfPow2(11);
    FloorLog2OfPow2(12);
    NewExactSets(2048, 1, 4096, 1024 * 1024, Threshold(1, 2), "footprint", 11);
    NewExactHugePages(2048, 1, 4096, 1024 * 1024, Threshold(1, 2), "footprint", 12);
  }

  /** Once huge page h is in fast memory, an access to any of its
      sub-pages hits: after ThresholdAtHalf, sub-page 513 is the first hit
      of the driver's walk. */
  lemma ResidentHits(s: State, h: nat, w: nat)
    requires Good(s) && ValidDraw(s.cfg.assoc, w)
    requires h < Pow2(ADDR_BITS - s.cfg.hugeBits) && Resident(s.trans, h)
    ensures forall k :: 0 <= k < SubPages(s.cfg) ==> Query(s, SubPageAddr(h, k, s.cfg.hugeBits), w).hit
  {
  }

  /** The first driver scenario, on any huge page h the predictor has not
      seen, with 1024 sub-pages per huge page and threshold 1/2 (the
      configuration TestOneGeometry derives): touching sub-pages 0 .. 511
      in order migrates nothing and hits nothing ... */
  lemma BelowHalf(s: State, h: nat, draws: seq<nat>)
    requires Fresh(s, h) && SubPages(s.cfg) == 1024 && s.cfg.thr == Threshold(1, 2)
    requires |draws| == 512 && ValidDraws(s.cfg, draws)
    ensures Counted(s, Run(s, PageAddrs(h, 0, 512, s.cfg.hugeBits), draws), h, 512, draws[0])
  {
    FreshTouchRun(s, h, 512, draws);
  }

  /** ... and touching sub-page 512 as well crosses the threshold and
      migrates the page, exactly once. */
  lemma ThresholdAtHalf(s: State, h: nat, draws: seq<nat>)
    requires Fresh(s, h) && SubPages(s.cfg) == 1024 && s.cfg.thr == Threshold(1, 2)
    requires |draws| == 513 && ValidDraws(s.cfg, draws)
    ensures Crossed(Run(s, PageAddrs(h, 0, 513, s.cfg.hugeBits), draws), h)
  {
    FreshCrossRun(s, h, 513, draws);
  }

  /** The fifth driver scenario's predictor: 8 sets of 4 ways, hot/cold
      policy, counter at zero. */
  lemma TestFiveStart()
    ensures var s := New(32, 4, 4096, 1024 * 1024, Threshold(1, 2), "hotcold");
            s.cfg.policy == HotCold && s.counter == 0 && s.cfg.sets == 8 && s.cfg.assoc == 4
  {
    Pow2Values();
    FloorLog2OfPow2(3);
    FloorLog2OfPow2(12);
  }

  /** The fifth driver scenario: 100000 accesses from a hot/cold predictor
      whose counter is at zero migrate exactly ten times, whatever the
      addresses. */
  lemma HotColdTenMigrations(s: State, addrs: seq<Addr>, draws: seq<nat>)
    requires Good(s) && s.cfg.policy == HotCold && s.counter == 0
    requires |addrs| == 100000 && |draws| == |addrs| && ValidDraws(s.cfg, draws)
    ensures Run(s, addrs, draws).migrations == 10
  {
    HotColdMigrationCount(s, addrs, draws);
  }
}
