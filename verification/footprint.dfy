/** The footprint table of FootprintPred: per huge page, which 4 KiB
    sub-pages have been touched since it was first tracked. The table is
    `sets` rows of `assoc` ways; `RecordAccess` works on the one row the
    address indexes, and the predictor writes that row back. */
module Footprint {
  import opened Wrappers
  import opened Search

  /** `fp_entry`: tag, valid bit, touched bitmap and its cached count. */
  datatype FpEntry = FpEntry(tag: nat, valid: bool, sum: nat, bits: seq<bool>)

  /** The migration threshold as the exact fraction num/den; the source's
      `float` is a dyadic rational, and multiplying it by a power of two is
      exact, so `sum > threshold * 2^k` is `sum * den > num * 2^k`. */
  datatype Threshold = Threshold(num: int, den: nat)

  function IsSet(b: bool): bool { b }

  /** The number of touched sub-pages in a bitmap. */
  function Touched(bits: seq<bool>): (n: nat)
  {
    Count(bits, IsSet)
  }

  /** An entry whose bitmap covers `pages` sub-pages and whose cached count
      is the number of touched ones. */
  predicate WellFormed(e: FpEntry, pages: nat)
  {
    |e.bits| == pages && e.sum == Touched(e.bits)
  }

  predicate AllWellFormed(row: seq<FpEntry>, pages: nat)
  {
    forall j :: 0 <= j < |row| ==> WellFormed(row[j], pages)
  }

  /** Within a row, no two valid ways carry the same tag. */
  predicate DistinctTags(row: seq<FpEntry>)
  {
    forall i, j :: 0 <= i < j < |row| && row[i].valid && row[j].valid ==> row[i].tag != row[j].tag
  }

  /** The way holds live data for `tag`. */
  function Holds(tag: nat): FpEntry -> bool
  {
    (e: FpEntry) => e.valid && e.tag == tag
  }

  function IsInvalid(e: FpEntry): bool { !e.valid }

  /** `sum > threshold * 2^(hugebits - 12)`. */
  predicate Crosses(sum: nat, pages: nat, thr: Threshold)
  {
    sum * thr.den > thr.num * pages
  }

  /** The random way `random(1, fpassoc - 1)` can return; with one way the
      draw is never made. */
  predicate ValidDraw(assoc: nat, w: nat)
  {
    assoc == 1 || 1 <= w < assoc
  }

  /** `init_fp_entry`: tag 0, invalid, nothing touched. */
  function InitEntry(pages: nat): (e: FpEntry)
    ensures WellFormed(e, pages)
    ensures e.tag == 0 && !e.valid && e.sum == 0
    ensures forall i :: 0 <= i < pages ==> !e.bits[i]
  {
    var bits := seq(pages, _ => false);
    CountZero(bits, IsSet);
    FpEntry(0, false, 0, bits)
  }

  /** The exact comparison is the source's `sum > threshold * pages` read
      over the reals, with the threshold num/den. */
  lemma CrossesExact(sum: nat, pages: nat, thr: Threshold)
    requires thr.den > 0
    ensures Crosses(sum, pages, thr)
            <==> (sum as real) > (thr.num as real / thr.den as real) * (pages as real)
  {
    var q := thr.num as real / thr.den as real;
    var d := thr.den as real;
    assert q * d == thr.num as real;
    assert (q * (pages as real)) * d == (thr.num * pages) as real;
    assert (sum as real) * d == (sum * thr.den) as real;
  }

  /** Crossing the threshold is monotone in the count: once crossed, a
      larger count crosses it too. */
  lemma CrossesMonotone(a: nat, b: nat, pages: nat, thr: Threshold)
    requires a <= b
    ensures Crosses(a, pages, thr) ==> Crosses(b, pages, thr)
  {
    assert b * thr.den == a * thr.den + (b - a) * thr.den;
  }

  /** The entry a miss installs: valid, the new tag, exactly one sub-page
      touched and a count of one (footprint_pred.cc:199-206). */
  function FreshEntry(tag: nat, pages: nat, off: nat): (e: FpEntry)
    requires off < pages
    ensures WellFormed(e, pages)
    ensures e.valid && e.tag == tag && e.sum == 1
    ensures forall i :: 0 <= i < pages ==> (e.bits[i] <==> i == off)
  {
    var clear := InitEntry(pages).bits;
    CountUpdate(clear, off, true, IsSet);
    FpEntry(tag, true, 1, clear[off := true])
  }

  /** Marks sub-page `off` as touched; the count goes up only when the bit
      goes from false to true (footprint_pred.cc:163-170). */
  function Mark(e: FpEntry, off: nat): (r: FpEntry)
    requires off < |e.bits|
    ensures r.tag == e.tag && r.valid == e.valid && |r.bits| == |e.bits|
    ensures r.bits[off]
    ensures forall i :: 0 <= i < |e.bits| && i != off ==> r.bits[i] == e.bits[i]
    ensures r.sum == e.sum + (if e.bits[off] then 0 else 1)
    ensures WellFormed(e, |e.bits|) ==> WellFormed(r, |e.bits|)
  {
    if e.bits[off] then e
    else
      CountUpdate(e.bits, off, true, IsSet);
      e.(bits := e.bits[off := true], sum := e.sum + 1)
  }

  /** The way the lookup loop of `record_access` settles on: it keeps
      scanning after a match, so it is the LAST valid way with the tag. */
  function FindWay(row: seq<FpEntry>, tag: nat): (r: Option<nat>)
    ensures r.Some? ==> r.value < |row| && row[r.value].valid && row[r.value].tag == tag
    ensures r.Some? ==> forall j :: r.value < j < |row| ==> !(row[j].valid && row[j].tag == tag)
    ensures r.None? <==> forall j :: 0 <= j < |row| ==> !(row[j].valid && row[j].tag == tag)
  {
    Last(row, Holds(tag))
  }

  /** The victim way of a miss, as the comment at footprint_pred.cc:181 and
      the loop at 185-190 intend it: the first invalid way, or else the
      random way `w` drawn from [1, assoc - 1]. */
  function Victim(row: seq<FpEntry>, w: nat): (v: nat)
    requires |row| > 1 && ValidDraw(|row|, w)
    ensures v < |row|
    ensures (exists j :: 0 <= j < |row| && !row[j].valid) ==>
              !row[v].valid && forall j :: 0 <= j < v ==> row[j].valid
    ensures (forall j :: 0 <= j < |row| ==> row[j].valid) ==> v == w
  {
    match First(row, IsInvalid)
    case Some(i) => i
    case None => w
  }

  /** A miss, corrected: the old way-0 value moves to the victim way and the
      new entry becomes way 0 (the MRU position). With one way, the new
      entry simply replaces way 0. */
  function InsertMiss(row: seq<FpEntry>, tag: nat, off: nat, pages: nat, w: nat): (r: seq<FpEntry>)
    requires |row| >= 1 && off < pages && ValidDraw(|row|, w)
    ensures |r| == |row|
    ensures r[0] == FreshEntry(tag, pages, off)
    ensures |row| > 1 ==>
              (var v := Victim(row, w);
               && (v != 0 ==> r[v] == row[0])
               && forall j :: 0 < j < |row| && j != v ==> r[j] == row[j])
  {
    var newEntry := FreshEntry(tag, pages, off);
    if |row| == 1 then [newEntry]
    else
      var v := Victim(row, w);
      row[v := row[0]][0 := newEntry]
  }

  /** Outcome of `record_access` on one row: the new row, and whether
      `migrate_page(addr)` is called. */
  datatype Access = Access(row: seq<FpEntry>, migrate: bool)

  /** `record_access` on the row `get_index(addr)` selects, with `tag` the
      address's footprint tag and `off` its sub-page. */
  function RecordAccess(row: seq<FpEntry>, tag: nat, off: nat, pages: nat, thr: Threshold, w: nat): (r: Access)
    requires |row| >= 1 && off < pages && ValidDraw(|row|, w)
    requires forall j :: 0 <= j < |row| ==> |row[j].bits| == pages
    ensures |r.row| == |row|
    // a hit marks the sub-page, then migrates past the threshold ...
    ensures FindWay(row, tag).Some? ==> (
              var f := FindWay(row, tag).value;
              var sum := row[f].sum + (if row[f].bits[off] then 0 else 1);
              && (r.migrate <==> Crosses(sum, pages, thr))
              && (r.migrate ==>
                    && r.row[f] == Mark(row[f], off).(valid := false)
                    && forall j :: 0 <= j < |row| && j != f ==> r.row[j] == row[j])
    // ... or swaps the found way with way 0
              && (!r.migrate ==>
                    && r.row[0] == Mark(row[f], off)
                    && r.row[0].valid && r.row[0].tag == tag && r.row[0].sum == sum
                    && (f != 0 ==> r.row[f] == row[0])
                    && forall j :: 0 < j < |row| && j != f ==> r.row[j] == row[j]))
    // a miss installs a new entry at way 0 and never migrates
    ensures FindWay(row, tag).None? ==> !r.migrate && r.row == InsertMiss(row, tag, off, pages, w)
    ensures AllWellFormed(row, pages) ==> AllWellFormed(r.row, pages)
  {
    match FindWay(row, tag)
    case Some(f) =>
      var marked := Mark(row[f], off);
      if Crosses(marked.sum, pages, thr) then
        Access(row[f := marked.(valid := false)], true)
      else
        Access(row[f := row[0]][0 := marked], false)
    case None =>
      Access(InsertMiss(row, tag, off, pages, w), false)
  }

  /** The cached count never exceeds the number of sub-pages. */
  lemma SumBounded(e: FpEntry, pages: nat)
    requires WellFormed(e, pages)
    ensures e.sum <= pages
  {
  }

  /** Way 0 tracks `tag` after its sub-pages 0 .. m-1 were touched in
      order (and nothing else), and no other way holds the tag. */
  predicate TracksPrefix(row: seq<FpEntry>, tag: nat, m: nat, pages: nat)
  {
    && |row| >= 1
    && row[0].valid && row[0].tag == tag && row[0].sum == m
    && |row[0].bits| == pages
    && (forall i :: 0 <= i < pages ==> (row[0].bits[i] <==> i < m))
    && (forall j :: 0 < j < |row| ==> !(row[j].valid && row[j].tag == tag))
  }

  /** The first touch of a huge page the row does not know installs it at
      way 0 with sub-page 0 marked, and never migrates. */
  lemma TouchFirst(row: seq<FpEntry>, tag: nat, pages: nat, thr: Threshold, w: nat)
    requires |row| >= 1 && 0 < pages && ValidDraw(|row|, w)
    requires forall j :: 0 <= j < |row| ==> |row[j].bits| == pages
    requires FindWay(row, tag).None?
    ensures !RecordAccess(row, tag, 0, pages, thr, w).migrate
    ensures TracksPrefix(RecordAccess(row, tag, 0, pages, thr, w).row, tag, 1, pages)
  {
    var r := RecordAccess(row, tag, 0, pages, thr, w).row;
    if |row| > 1 {
      var v := Victim(row, w);
      forall j | 0 < j < |r| ensures !(r[j].valid && r[j].tag == tag) {
        assert r[j] == (if j == v then row[0] else row[j]);
      }
    }
  }

  /** Touching the next sub-page m of a tracked huge page counts one more
      sub-page; the page migrates exactly when m + 1 crosses the threshold,
      and otherwise stays tracked at way 0. Other ways are untouched. */
  lemma TouchNext(row: seq<FpEntry>, tag: nat, m: nat, pages: nat, thr: Threshold, w: nat)
    requires m < pages && ValidDraw(|row|, w)
    requires forall j :: 0 <= j < |row| ==> |row[j].bits| == pages
    requires TracksPrefix(row, tag, m, pages)
    ensures var r := RecordAccess(row, tag, m, pages, thr, w);
            && (r.migrate <==> Crosses(m + 1, pages, thr))
            && (r.migrate ==> !r.row[0].valid)
            && (!r.migrate ==> TracksPrefix(r.row, tag, m + 1, pages))
            && forall j :: 0 < j < |row| ==> r.row[j] == row[j]
  {
    assert FindWay(row, tag) == Some(0);
  }

  /** `record_access` keeps the tags of a row's valid ways distinct: a miss
      installs a tag no valid way had, and a hit only moves or invalidates. */
  lemma {:induction false} RecordAccessKeepsTagsDistinct(row: seq<FpEntry>, tag: nat, off: nat, pages: nat, thr: Threshold, w: nat)
    requires |row| >= 1 && off < pages && ValidDraw(|row|, w)
    requires forall j :: 0 <= j < |row| ==> |row[j].bits| == pages
    requires DistinctTags(row)
    ensures DistinctTags(RecordAccess(row, tag, off, pages, thr, w).row)
  {
    var r := RecordAccess(row, tag, off, pages, thr, w).row;
    match FindWay(row, tag)
    case Some(f) =>
      forall i, j | 0 <= i < j < |r| && r[i].valid && r[j].valid
        ensures r[i].tag != r[j].tag
      {
        // each valid way of r is a valid way of row; distinct positions map
        // to distinct positions
        var migrate := RecordAccess(row, tag, off, pages, thr, w).migrate;
        var oi := if migrate then i else Origin(i, f);
        var oj := if migrate then j else Origin(j, f);
        assert r[i].tag == row[oi].tag && row[oi].valid;
        assert r[j].tag == row[oj].tag && row[oj].valid;
        assert oi != oj;
      }
    case None =>
      if |row| > 1 {
        var v := Victim(row, w);
        forall i, j | 0 <= i < j < |r| && r[i].valid && r[j].valid
          ensures r[i].tag != r[j].tag
        {
          var oj := if j == v then 0 else j;
          assert r[j] == row[oj];
          if i == 0 {
            assert r[i].tag == tag;
          } else {
            var oi := if i == v then 0 else i;
            assert r[i] == row[oi];
            assert oi != oj;
          }
        }
      }
  }

  /** Where way i of the row after a hit came from: the found way f and way 0
      trade places, every other way stays. */
  function Origin(i: nat, f: nat): (o: nat)
  {
    if i == 0 then f else if i == f then 0 else i
  }

  /** footprint_pred.cc:183-197 as written. The inner `int idx` at line 192
      shadows the outer one, so the random way is thrown away; and line 196
      copies the entry's address rather than its value, so way idx and way 0
      become one object. Returns None when the write lands at way -1
      (undefined behaviour), otherwise the row
      as seen right after the call: the new entry at way 0 and at way idx
      alike, and the old way-0 value gone. */
  function MissAsWritten(row: seq<FpEntry>, tag: nat, off: nat, pages: nat): (r: Option<seq<FpEntry>>)
    requires |row| >= 1 && off < pages
    ensures |row| > 1 && (forall j :: 0 <= j < |row| ==> row[j].valid) ==> r.None?
    ensures (|row| == 1 || exists j :: 0 <= j < |row| && !row[j].valid) ==> r.Some?
    ensures r.Some? ==> |r.value| == |row| && r.value[0] == FreshEntry(tag, pages, off)
    ensures r.Some? && |row| > 1 ==>
              && First(row, IsInvalid).Some?
              && var i := First(row, IsInvalid).value;
                 && r.value[i] == FreshEntry(tag, pages, off)
                 && forall j :: 0 < j < |row| && j != i ==> r.value[j] == row[j]
  {
    var newEntry := FreshEntry(tag, pages, off);
    if |row| == 1 then Some([newEntry])
    else match First(row, IsInvalid)
      case None => None
      case Some(i) => Some(row[i := newEntry][0 := newEntry])
  }

  /** The as-written miss path loses the entry that was most recently used:
      with way 0 valid and an invalid way further on, the old way-0 value
      appears nowhere in the row afterwards. The corrected InsertMiss keeps
      it (at the victim way). */
  lemma {:induction false} MissAsWrittenLosesWayZero(row: seq<FpEntry>, tag: nat, off: nat, pages: nat, w: nat)
    requires |row| > 1 && off < pages && ValidDraw(|row|, w)
    requires DistinctTags(row) && row[0].valid && row[0].tag != tag
    requires exists j :: 0 < j < |row| && !row[j].valid
    ensures MissAsWritten(row, tag, off, pages).Some?
    ensures row[0] !in MissAsWritten(row, tag, off, pages).value
    ensures row[0] in InsertMiss(row, tag, off, pages, w)
  {
    var i := First(row, IsInvalid).value;
    var r := MissAsWritten(row, tag, off, pages).value;
    var newEntry := FreshEntry(tag, pages, off);
    assert r == row[i := newEntry][0 := newEntry];
    forall k | 0 <= k < |r| ensures r[k] != row[0] {
      if k != 0 && k != i {
        assert r[k] == row[k];
        if row[k].valid {
          assert row[k].tag != row[0].tag;
        }
      }
    }
    var v := Victim(row, w);
    assert v == i && v != 0;
    assert InsertMiss(row, tag, off, pages, w)[v] == row[0];
  }
}
