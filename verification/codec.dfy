/** The address codec of FootprintPred: a 64-bit address split into the
    sub-page offset, the footprint-table set index, the footprint-table tag
    and the huge-page tag, by shifting right and masking.

    On an unsigned 64-bit value, `x >> k` is `x / 2^k` and `x & ((1 << m) - 1)`
    is `x % 2^m`; the codec is written with those two helpers so that each
    function reads like its shift-and-mask original. */
module Codec {
  import opened Arith

  /** Width of an address (`addrbits`). */
  const ADDR_BITS: nat := 64

  /** lg of the small (sub-)page size, 4 KiB (`PGBITS`). */
  const PAGE_BITS: nat := 12

  /** An unsigned 64-bit address (`Addr`). */
  type Addr = a: nat | a < 0x1_0000_0000_0000_0000

  /** `x >> k` on an unsigned value. */
  function Shr(x: nat, k: nat): (r: nat)
  {
    DivMod(x, Pow2(k));
    x / Pow2(k)
  }

  /** `x & ((1 << m) - 1)`: the low m bits. */
  function LowBits(x: nat, m: nat): (r: nat)
    ensures r < Pow2(m)
  {
    x % Pow2(m)
  }

  /** The bit widths the codec accepts: a huge page is at least one small
      page, and the tag shift `addr >> (lg_fpsize + hugebits)` stays below the
      address width. */
  predicate ValidBits(hugeBits: nat, lgSets: nat)
  {
    PAGE_BITS <= hugeBits && hugeBits + lgSets < ADDR_BITS
  }

  /** `get_small_pg`: bits [12, hugeBits), the sub-page within the huge page. */
  function SmallPage(a: Addr, hugeBits: nat): (r: nat)
    requires PAGE_BITS <= hugeBits
    ensures r < Pow2(hugeBits - PAGE_BITS)
  {
    LowBits(Shr(a, PAGE_BITS), hugeBits - PAGE_BITS)
  }

  /** `get_index`: bits [hugeBits, hugeBits + lgSets), the footprint set. */
  function Index(a: Addr, hugeBits: nat, lgSets: nat): (r: nat)
    requires ValidBits(hugeBits, lgSets)
    ensures r < Pow2(lgSets)
  {
    LowBits(Shr(a, hugeBits), lgSets)
  }

  /** `get_tag`: bits [hugeBits + lgSets, 64), the footprint tag. */
  function Tag(a: Addr, hugeBits: nat, lgSets: nat): (r: nat)
    requires ValidBits(hugeBits, lgSets)
    ensures r < Pow2(ADDR_BITS - hugeBits - lgSets)
  {
    LowBits(Shr(a, hugeBits + lgSets), ADDR_BITS - lgSets - hugeBits)
  }

  /** `get_hugetag`: bits [hugeBits, 64), the huge page's global tag. */
  function HugeTag(a: Addr, hugeBits: nat): (r: nat)
    requires PAGE_BITS <= hugeBits <= ADDR_BITS
    ensures r < Pow2(ADDR_BITS - hugeBits)
  {
    LowBits(Shr(a, hugeBits), ADDR_BITS - hugeBits)
  }

  /** The mask in `get_hugetag` is redundant: the shifted address already
      fits in 64 - hugeBits bits, so the huge-page tag is the address shifted
      right by hugeBits. */
  lemma HugeTagIsShift(a: Addr, hugeBits: nat)
    requires PAGE_BITS <= hugeBits <= ADDR_BITS
    ensures HugeTag(a, hugeBits) == a / Pow2(hugeBits)
  {
    var p, q := Pow2(hugeBits), Pow2(ADDR_BITS - hugeBits);
    Pow2Add(hugeBits, ADDR_BITS - hugeBits);
    Pow2Values();
    assert a < p * q;
    DivBelow(a, p, q);
    var d: nat := Shr(a, hugeBits);
    ModBelow(d, q);
  }

  /** The huge-page tag is the footprint tag followed by the set index:
      hugetag = tag * 2^lgSets + index. So two addresses of the same huge
      page land in the same set with the same tag, and two huge pages that
      share a set differ in their tags. */
  lemma HugeTagSplits(a: Addr, hugeBits: nat, lgSets: nat)
    requires ValidBits(hugeBits, lgSets)
    ensures HugeTag(a, hugeBits)
         == Tag(a, hugeBits, lgSets) * Pow2(lgSets) + Index(a, hugeBits, lgSets)
  {
    HugeTagIsShift(a, hugeBits);
    var ph, ps, pt := Pow2(hugeBits), Pow2(lgSets), Pow2(ADDR_BITS - lgSets - hugeBits);
    var q: nat := Shr(a, hugeBits);
    Pow2Add(hugeBits, lgSets);
    DivDiv(a, ph, ps);
    DivMod(q, ps);
    var t: nat := q / ps;
    assert Shr(a, hugeBits + lgSets) == t;
    Pow2Add(lgSets, ADDR_BITS - lgSets - hugeBits);
    assert q < ps * pt;
    DivBelow(q, ps, pt);
    ModBelow(t, pt);
    assert Tag(a, hugeBits, lgSets) == t;
  }

  /** The address is recovered from its huge-page tag, its sub-page and its
      byte offset within the sub-page: nothing is lost by the split. */
  lemma AddressRecomposes(a: Addr, hugeBits: nat)
    requires PAGE_BITS <= hugeBits <= ADDR_BITS
    ensures a == HugeTag(a, hugeBits) * Pow2(hugeBits)
               + SmallPage(a, hugeBits) * Pow2(PAGE_BITS)
               + a % Pow2(PAGE_BITS)
  {
    HugeTagIsShift(a, hugeBits);
    var pp, ps := Pow2(PAGE_BITS), Pow2(hugeBits - PAGE_BITS);
    Pow2Add(PAGE_BITS, hugeBits - PAGE_BITS);
    assert Pow2(hugeBits) == pp * ps;
    DivDiv(a, pp, ps);
    DivMod(a, pp * ps);
  }

  /** The set index and the footprint tag depend on the huge page alone:
      they are the low lgSets bits of the huge-page tag and the rest. */
  lemma IndexTagOfHugeTag(a: Addr, hugeBits: nat, lgSets: nat)
    requires ValidBits(hugeBits, lgSets)
    ensures Index(a, hugeBits, lgSets) == HugeTag(a, hugeBits) % Pow2(lgSets)
    ensures Tag(a, hugeBits, lgSets) == HugeTag(a, hugeBits) / Pow2(lgSets)
  {
    HugeTagSplits(a, hugeBits, lgSets);
    DivModUnique(HugeTag(a, hugeBits), Pow2(lgSets), Tag(a, hugeBits, lgSets), Index(a, hugeBits, lgSets));
  }

  /** The first address of sub-page k of huge page h: the codec's inverse. */
  function SubPageAddr(h: nat, k: nat, hugeBits: nat): (a: Addr)
    requires PAGE_BITS <= hugeBits <= ADDR_BITS
    requires h < Pow2(ADDR_BITS - hugeBits) && k < Pow2(hugeBits - PAGE_BITS)
    ensures HugeTag(a, hugeBits) == h && SmallPage(a, hugeBits) == k
    ensures a % Pow2(PAGE_BITS) == 0
  {
    var a := Compose(h, k, hugeBits);
    ComposeBound(h, k, hugeBits);
    ComposeSplits(h, k, hugeBits);
    a
  }

  /** h * 2^hugeBits + k * 2^12. */
  function Compose(h: nat, k: nat, hugeBits: nat): (a: nat)
  {
    h * Pow2(hugeBits) + k * Pow2(PAGE_BITS)
  }

  lemma ComposeBound(h: nat, k: nat, hugeBits: nat)
    requires PAGE_BITS <= hugeBits <= ADDR_BITS
    requires h < Pow2(ADDR_BITS - hugeBits) && k < Pow2(hugeBits - PAGE_BITS)
    ensures Compose(h, k, hugeBits) < 0x1_0000_0000_0000_0000
  {
    var p, q, pp, ps := Pow2(hugeBits), Pow2(ADDR_BITS - hugeBits), Pow2(PAGE_BITS), Pow2(hugeBits - PAGE_BITS);
    Pow2Add(hugeBits, ADDR_BITS - hugeBits);
    Pow2Add(PAGE_BITS, hugeBits - PAGE_BITS);
    assert Pow2(64) == 0x1_0000_0000_0000_0000 by { Pow2Values(); }
    TwoDigits(h, k, pp, ps);
    MulBelow(h, q, p, k * pp);
  }

  lemma ComposeSplits(h: nat, k: nat, hugeBits: nat)
    requires PAGE_BITS <= hugeBits <= ADDR_BITS
    requires h < Pow2(ADDR_BITS - hugeBits) && k < Pow2(hugeBits - PAGE_BITS)
    requires Compose(h, k, hugeBits) < 0x1_0000_0000_0000_0000
    ensures HugeTag(Compose(h, k, hugeBits), hugeBits) == h
    ensures SmallPage(Compose(h, k, hugeBits), hugeBits) == k
    ensures Compose(h, k, hugeBits) % Pow2(PAGE_BITS) == 0
  {
    var a: Addr := Compose(h, k, hugeBits);
    var pp, ps := Pow2(PAGE_BITS), Pow2(hugeBits - PAGE_BITS);
    Pow2Add(PAGE_BITS, hugeBits - PAGE_BITS);
    HugeTagIsShift(a, hugeBits);
    TwoDigits(h, k, pp, ps);
  }

  /** Two addresses are in the same huge page exactly when they land in the
      same footprint set with the same footprint tag. */
  lemma SameHugePageSameSet(a: Addr, b: Addr, hugeBits: nat, lgSets: nat)
    requires ValidBits(hugeBits, lgSets)
    ensures HugeTag(a, hugeBits) == HugeTag(b, hugeBits)
        <==> Index(a, hugeBits, lgSets) == Index(b, hugeBits, lgSets)
             && Tag(a, hugeBits, lgSets) == Tag(b, hugeBits, lgSets)
  {
    HugeTagSplits(a, hugeBits, lgSets);
    HugeTagSplits(b, hugeBits, lgSets);
    if HugeTag(a, hugeBits) == HugeTag(b, hugeBits) {
      var p, x := Pow2(lgSets), HugeTag(a, hugeBits);
      DivModUnique(x, p, Tag(a, hugeBits, lgSets), Index(a, hugeBits, lgSets));
      DivModUnique(x, p, Tag(b, hugeBits, lgSets), Index(b, hugeBits, lgSets));
    }
  }
}
