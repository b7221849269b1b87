/** The translation (residency) table of FootprintPred: `ram_pages` slots,
    one per huge page that fits in fast memory, each with a tag, a valid bit
    and the CLOCK reference bit `clock_set`. */
module Translation {
  import opened Wrappers
  import opened Search
  import opened Arith

  /** `trans_entry`. */
  datatype TransEntry = TransEntry(tag: nat, valid: bool, clockSet: bool)

  /** `init_trans_entry`: a slot that holds no huge page, with its
      reference bit clear. */
  function InitTransEntry(): (e: TransEntry)
    ensures forall h :: !Resides(e, h)
    ensures !e.clockSet && e.tag == 0
  {
    TransEntry(0, false, false)
  }

  /** The slot holds huge page h. */
  predicate Resides(e: TransEntry, h: nat)
  {
    e.valid && e.tag == h
  }

  /** Huge page h is in fast memory. */
  predicate Resident(t: seq<TransEntry>, h: nat)
  {
    exists i :: 0 <= i < |t| && Resides(t[i], h)
  }

  /** No huge page occupies two valid slots. */
  predicate DistinctValid(t: seq<TransEntry>)
  {
    forall i, j :: 0 <= i < j < |t| && t[i].valid && t[j].valid ==> t[i].tag != t[j].tag
  }

  function IsValidSlot(e: TransEntry): bool { e.valid }
  function IsInvalidSlot(e: TransEntry): bool { !e.valid }
  function IsClockSet(e: TransEntry): bool { e.clockSet }

  /** The number of occupied slots. */
  function ValidCount(t: seq<TransEntry>): (n: nat)
  {
    Count(t, IsValidSlot)
  }

  /** Outcome of the residency check: the table with reference bits
      refreshed, and whether the page was found. */
  datatype Probe = Probe(table: seq<TransEntry>, hit: bool)

  /** The residency loop of `addr_inFastMem` (footprint_pred.cc:124-129),
      comparing the full 64-bit huge-page tag: every valid slot holding h
      gets its reference bit set (the loop does not stop at the first), and
      the result is a hit iff h is resident. */
  function Lookup(t: seq<TransEntry>, h: nat): (r: Probe)
    ensures |r.table| == |t|
    ensures r.hit <==> Resident(t, h)
    ensures forall i :: 0 <= i < |t| ==>
              r.table[i] == (if Resides(t[i], h) then t[i].(clockSet := true) else t[i])
  {
    if |t| == 0 then Probe([], false)
    else
      var rest := Lookup(t[1..], h);
      var first := if Resides(t[0], h) then t[0].(clockSet := true) else t[0];
      assert forall i :: 1 <= i < |t| ==> t[i] == t[1..][i - 1];
      Probe([first] + rest.table, Resides(t[0], h) || rest.hit)
  }

  /** A miss changes nothing in the table. */
  lemma LookupMissUnchanged(t: seq<TransEntry>, h: nat)
    requires !Resident(t, h)
    ensures Lookup(t, h).table == t
  {
    var r := Lookup(t, h);
    assert forall i :: 0 <= i < |t| ==> r.table[i] == t[i];
  }

  /** Looking the same page up twice is looking it up once: the second
      lookup finds the same slots and their bits are already set. */
  lemma LookupIdempotent(t: seq<TransEntry>, h: nat)
    ensures Lookup(Lookup(t, h).table, h) == Lookup(t, h)
  {
    var r1 := Lookup(t, h);
    LookupKeepsResidency(t, h, h);
    LookupSetBitsUnchanged(r1.table, h);
  }

  /** When every slot holding the page already has its bit set, the lookup
      leaves the table as it is. */
  lemma LookupSetBitsUnchanged(t: seq<TransEntry>, h: nat)
    requires forall i :: 0 <= i < |t| && Resides(t[i], h) ==> t[i].clockSet
    ensures Lookup(t, h).table == t
  {
    var r := Lookup(t, h);
    assert forall i :: 0 <= i < |t| ==> r.table[i] == t[i];
  }

  /** The lookup only touches reference bits: which pages are resident, and
      in which slots, is unchanged. */
  lemma LookupKeepsResidency(t: seq<TransEntry>, h: nat, h': nat)
    ensures Resident(Lookup(t, h).table, h') <==> Resident(t, h')
    ensures DistinctValid(t) ==> DistinctValid(Lookup(t, h).table)
  {
    var r := Lookup(t, h);
    assert forall i :: 0 <= i < |t| ==> Resides(r.table[i], h') == Resides(t[i], h');
    if Resident(t, h') {
      var i :| 0 <= i < |t| && Resides(t[i], h');
      assert Resides(r.table[i], h');
    }
  }

  /** `(hand + 1) % ram_pages` for a hand inside the table. */
  function Next(hand: nat, n: nat): (r: nat)
    requires hand < n
    ensures r < n && r == (hand + 1) % n
  {
    if hand + 1 < n then hand + 1 else 0
  }

  /** The slot k steps of the hand after `start`, for k <= n. */
  function Slot(start: nat, k: nat, n: nat): (r: nat)
    requires start < n && k <= n
    ensures r < n && r == (start + k) % n
  {
    if start + k < n then
      ModBelow(start + k, n);
      start + k
    else
      DivModUnique(start + k, n, 1, start + k - n);
      start + k - n
  }

  /** How many steps the hand needs from `start` to reach slot i. */
  function Dist(start: nat, i: nat, n: nat): (d: nat)
    requires start < n && i < n
    ensures d < n && Slot(start, d, n) == i
  {
    if i >= start then i - start else i + n - start
  }

  /** Outcome of the CLOCK loop: the table with cleared bits, the victim
      slot, the new hand, and how many set slots the hand passed over. */
  datatype Sweep = Sweep(table: seq<TransEntry>, victim: nat, hand: nat, passed: nat)

  /** What a CLOCK sweep from `hand` over t does, slot by slot. */
  ghost predicate IsSweepOf(t: seq<TransEntry>, hand: nat, r: Sweep)
    requires 0 < |t| && hand < |t|
  {
    // the hand passes at most every slot once before it stops ...
    && r.passed <= |t|
    && r.victim == Slot(hand, r.passed, |t|)
    // ... every slot it passes had its reference bit set ...
    && (forall k :: 0 <= k < r.passed ==> t[Slot(hand, k, |t|)].clockSet)
    // ... and it stops at the first clear one (at `hand` again, once it has
    // cleared all of them)
    && (r.passed < |t| ==> !t[r.victim].clockSet)
    && r.hand == Next(r.victim, |t|)
    // the passed slots lose their reference bit, nothing else changes
    && |r.table| == |t|
    && (forall i :: 0 <= i < |t| ==>
          r.table[i] == (if Dist(hand, i, |t|) < r.passed then t[i].(clockSet := false) else t[i]))
  }

  /** The CLOCK loop of `migrate_page` (footprint_pred.cc:231-239): while the
      slot at the hand has its reference bit set, clear it and advance; the
      first slot found clear is the victim and the hand moves past it. Each
      recursive step clears one set bit, which is what makes it terminate. */
  function ClockSweep(t: seq<TransEntry>, hand: nat): (r: Sweep)
    requires 0 < |t| && hand < |t|
    decreases Count(t, IsClockSet)
    ensures r.victim < |t| && r.hand < |t|
    ensures IsSweepOf(t, hand, r)
  {
    var n := |t|;
    if !t[hand].clockSet then Sweep(t, hand, Next(hand, n), 0)
    else
      var cleared := t[hand := t[hand].(clockSet := false)];
      CountUpdate(t, hand, t[hand].(clockSet := false), IsClockSet);
      var r := ClockSweep(cleared, Next(hand, n));
      SweepStep(t, hand, r);
      Sweep(r.table, r.victim, r.hand, r.passed + 1)
  }

  /** One hand step: if the hand's slot is set, clearing it and sweeping on
      from the next slot is a sweep from the hand that passed one more slot. */
  lemma SweepStep(t: seq<TransEntry>, hand: nat, r: Sweep)
    requires 0 < |t| && hand < |t| && t[hand].clockSet
    requires IsSweepOf(t[hand := t[hand].(clockSet := false)], Next(hand, |t|), r)
    ensures IsSweepOf(t, hand, Sweep(r.table, r.victim, r.hand, r.passed + 1))
  {
    var n := |t|;
    var next := Next(hand, n);
    var cleared := t[hand := t[hand].(clockSet := false)];
    assert Slot(next, n - 1, n) == hand;
    assert r.passed < n;
    forall k | 0 <= k < r.passed + 1 ensures t[Slot(hand, k, n)].clockSet {
      if k > 0 {
        assert Slot(hand, k, n) == Slot(next, k - 1, n);
        assert cleared[Slot(next, k - 1, n)].clockSet;
      }
    }
    assert Slot(hand, r.passed + 1, n) == Slot(next, r.passed, n);
    forall i | 0 <= i < n
      ensures r.table[i] == (if Dist(hand, i, n) < r.passed + 1 then t[i].(clockSet := false) else t[i])
    {
      if i == hand {
        assert Dist(next, i, n) == n - 1;
      } else {
        assert Dist(next, i, n) == Dist(hand, i, n) - 1;
      }
    }
  }

  /** Outcome of `migrate_page`. */
  datatype Migration = Migration(table: seq<TransEntry>, hand: nat, victim: nat)

  /** `migrate_page`: install huge page h in the first invalid slot if there
      is one (the hand does not move), otherwise in the CLOCK victim. */
  function Migrate(t: seq<TransEntry>, hand: nat, h: nat): (r: Migration)
    requires 0 < |t| && hand < |t|
    ensures |r.table| == |t| && r.victim < |t| && r.hand < |t|
    ensures r.table[r.victim] == TransEntry(h, true, false)
    // only the victim changes tag or validity; other slots can only lose
    // their reference bit
    ensures forall i :: 0 <= i < |t| && i != r.victim ==>
              r.table[i] == t[i] || r.table[i] == t[i].(clockSet := false)
    // a free slot is taken first: the lowest invalid one, nothing else moves
    ensures (exists i :: 0 <= i < |t| && !t[i].valid) ==>
              && !t[r.victim].valid
              && (forall i :: 0 <= i < r.victim ==> t[i].valid)
              && r.hand == hand
              && (forall i :: 0 <= i < |t| && i != r.victim ==> r.table[i] == t[i])
              && ValidCount(r.table) == ValidCount(t) + 1
    // a full table evicts by CLOCK
    ensures (forall i :: 0 <= i < |t| ==> t[i].valid) ==>
              var s := ClockSweep(t, hand);
              && r.victim == s.victim && r.hand == s.hand
              && (forall i :: 0 <= i < |t| && i != r.victim ==> r.table[i] == s.table[i])
              && ValidCount(r.table) == |t|
    ensures ValidCount(r.table) <= |t|
  {
    var entry := TransEntry(h, true, false);
    match First(t, IsInvalidSlot)
    case Some(i) =>
      CountUpdate(t, i, entry, IsValidSlot);
      Migration(t[i := entry], hand, i)
    case None =>
      var s := ClockSweep(t, hand);
      var table := s.table[s.victim := entry];
      CountFull(table, IsValidSlot);
      Migration(table, s.hand, s.victim)
  }

  /** When every reference bit is set, the hand goes once round the table
      clearing them all and evicts the slot it started at. */
  lemma SweepAllSet(t: seq<TransEntry>, hand: nat)
    requires 0 < |t| && hand < |t|
    requires forall i :: 0 <= i < |t| ==> t[i].clockSet
    ensures ClockSweep(t, hand).victim == hand
    ensures ClockSweep(t, hand).hand == Next(hand, |t|)
    ensures forall i :: 0 <= i < |t| ==> !ClockSweep(t, hand).table[i].clockSet
  {
  }

  /** A migration into a full table whose reference bits are all set (the
      state the third driver scenario reaches with its 257th huge page):
      the slot under the hand is evicted, the hand advances by one, and
      every other slot keeps its page but loses its reference bit. */
  lemma MigrateFullAllSet(t: seq<TransEntry>, hand: nat, h: nat)
    requires 0 < |t| && hand < |t|
    requires forall i :: 0 <= i < |t| ==> t[i].valid && t[i].clockSet
    ensures var r := Migrate(t, hand, h);
            && r.victim == hand && r.hand == Next(hand, |t|)
            && r.table[hand] == TransEntry(h, true, false)
            && forall i :: 0 <= i < |t| && i != hand ==> r.table[i] == t[i].(clockSet := false)
  {
    SweepAllSet(t, hand);
  }

  /** When some reference bit is clear, the hand stops at the first such
      slot in hand order, having passed fewer than all slots. */
  lemma SweepStopsAtFirstClear(t: seq<TransEntry>, hand: nat, i: nat)
    requires 0 < |t| && hand < |t| && i < |t| && !t[i].clockSet
    ensures ClockSweep(t, hand).passed <= Dist(hand, i, |t|)
    ensures ClockSweep(t, hand).passed < |t|
  {
  }

  /** Migration makes the page resident: a lookup right after it hits. */
  lemma MigratedPageHits(t: seq<TransEntry>, hand: nat, h: nat)
    requires 0 < |t| && hand < |t|
    ensures Lookup(Migrate(t, hand, h).table, h).hit
  {
    var r := Migrate(t, hand, h);
    assert Resides(r.table[r.victim], h);
  }

  /** A page that was not resident can be migrated without creating a
      second slot for any page. */
  lemma MigrateKeepsDistinct(t: seq<TransEntry>, hand: nat, h: nat)
    requires 0 < |t| && hand < |t|
    requires DistinctValid(t) && !Resident(t, h)
    ensures DistinctValid(Migrate(t, hand, h).table)
  {
    var r := Migrate(t, hand, h);
    forall i, j | 0 <= i < j < |t| && r.table[i].valid && r.table[j].valid
      ensures r.table[i].tag != r.table[j].tag
    {
      if i == r.victim {
        assert !Resides(t[j], h);
      } else if j == r.victim {
        assert !Resides(t[i], h);
      }
    }
  }

  // ---- footprint_pred.cc:120 as written ----

  /** The key the residency loop actually compares with: `int tag =
      get_hugetag(addr)` keeps the low 32 bits as a signed int, and the
      comparison with the 64-bit `Addr` tag widens it back, sign-extending
      a negative value to 2^64 + value. */
  function WidenedKey(h: nat): (k: nat)
    ensures k < 0x1_0000_0000_0000_0000
    ensures h % 0x1_0000_0000 < 0x8000_0000 ==> k == h % 0x1_0000_0000
    ensures h % 0x1_0000_0000 >= 0x8000_0000 ==> k >= 0x1_0000_0000_0000_0000 - 0x8000_0000
  {
    var low := h % 0x1_0000_0000;
    if low < 0x8000_0000 then low else low + 0x1_0000_0000_0000_0000 - 0x1_0000_0000
  }

  /** The residency loop as written: it compares against WidenedKey(h). */
  function LookupAsWritten(t: seq<TransEntry>, h: nat): (r: Probe)
    ensures r.hit <==> exists i :: 0 <= i < |t| && t[i].valid && t[i].tag == WidenedKey(h)
  {
    Lookup(t, WidenedKey(h))
  }

  /** The conversion also finds pages that are not there: a page whose tag
      differs from a resident page's tag (below 2^31) by exactly 2^32 is
      reported resident by the as-written loop, while Lookup misses it. */
  lemma TruncatedTagFalseHit(t: seq<TransEntry>, h: nat)
    requires h < 0x8000_0000 && Resident(t, h) && !Resident(t, h + 0x1_0000_0000)
    ensures LookupAsWritten(t, h + 0x1_0000_0000).hit
    ensures !Lookup(t, h + 0x1_0000_0000).hit
  {
    assert WidenedKey(h + 0x1_0000_0000) == h;
  }

  /** The conversion is harmless for tags below 2^31: the as-written loop
      and the full-tag Lookup then agree exactly. */
  lemma LookupAsWrittenAgrees(t: seq<TransEntry>, h: nat)
    requires h < 0x8000_0000
    ensures LookupAsWritten(t, h) == Lookup(t, h)
  {
  }

  /** Above 2^31 the conversion loses the page: with 4 MiB huge pages (so
      tags are below 2^42), the page with tag 2^31 (the address 2^53) is
      migrated into the table and still misses in the as-written loop, while
      Lookup hits. */
  lemma TruncatedTagMisses(t: seq<TransEntry>, hand: nat)
    requires 0 < |t| && hand < |t|
    requires forall i :: 0 <= i < |t| ==> t[i].tag < 0x400_0000_0000
    ensures !LookupAsWritten(Migrate(t, hand, 0x8000_0000).table, 0x8000_0000).hit
    ensures Lookup(Migrate(t, hand, 0x8000_0000).table, 0x8000_0000).hit
  {
    var m := Migrate(t, hand, 0x8000_0000);
    MigratedPageHits(t, hand, 0x8000_0000);
    var key := WidenedKey(0x8000_0000);
    assert key >= 0x1_0000_0000_0000_0000 - 0x8000_0000;
    forall i | 0 <= i < |m.table| ensures !Resides(m.table[i], key) {
      if i != m.victim {
        assert m.table[i].tag == t[i].tag;
      }
    }
  }
}
