/** The two-level page table of the Samsung SysMMU v9
    (drivers/iommu/samsung-iommu-v9.c): a first-level table of 1 MiB slots,
    each unmapped, a 1 MiB section, or a reference to a lazily allocated
    second-level table of 4 KiB entries; 64 KiB large pages occupy an aligned
    run of sixteen identical second-level entries. Every first-level slot has
    a live-entry counter (`lv2entcnt`) that the driver keeps in step with the
    number of used entries of its second-level table.

    Entries are tagged values rather than hardware bit patterns: a mapped
    entry keeps the physical address it was written with, and a lookup masks
    it to the entry's granule, as `section_phys`, `lpage_phys` and
    `spage_phys` do. The layout constants come from samsung-iommu-v9.h, which
    is not part of this model; the values below are the v9 hardware's.
 */
module SysmmuTable {
  import opened Errors

  const SPAGE_SIZE: nat := 0x1000
  const LPAGE_SIZE: nat := 0x1_0000
  const SECT_SIZE: nat := 0x10_0000
  const NUM_LV2ENTRIES: nat := 256
  const SPAGES_PER_LPAGE: nat := 16
  /** First-level table lengths for a 32-bit and a 36-bit I/O virtual address space. */
  const NUM_LV1ENTRIES_32BIT: nat := 0x1000
  const NUM_LV1ENTRIES_36BIT: nat := 0x1_0000

  /** Mapping attributes (include/linux/iommu.h). */
  const IOMMU_CACHE: bv32 := 4
  const IOMMU_PRIV: bv32 := 32

  lemma SizeRelations()
    ensures SECT_SIZE == NUM_LV2ENTRIES * SPAGE_SIZE
    ensures LPAGE_SIZE == SPAGES_PER_LPAGE * SPAGE_SIZE
    ensures NUM_LV1ENTRIES_32BIT * SECT_SIZE == 0x1_0000_0000
    ensures NUM_LV1ENTRIES_36BIT * SECT_SIZE == 0x10_0000_0000
  {
  }

  datatype Lv2Entry = Lv2Unmapped | SmallPage(pa: nat, shareable: bool) | LargePage(pa: nat, shareable: bool)

  datatype Lv1Entry = Lv1Unmapped | Section(pa: nat, shareable: bool) | Lv2Table(entries: seq<Lv2Entry>)

  /** A domain's first-level table together with its per-slot counters. */
  datatype PageTable = PageTable(lv1: seq<Lv1Entry>, lv2entcnt: seq<int>)

  /** Pending invalidation range `[start, end)`. */
  datatype Gather = Gather(start: nat, end: nat)

  function AlignDown(x: nat, g: nat): (r: nat)
    requires IsPageSize(g)
    ensures r <= x && r % g == 0 && x - r < g
  {
    x - x % g
  }

  predicate IsPageSize(size: nat)
  {
    size == SPAGE_SIZE || size == LPAGE_SIZE || size == SECT_SIZE
  }

  function Lv1Index(iova: nat): nat { iova / SECT_SIZE }

  function Lv2Index(iova: nat): (k: nat)
    ensures k < NUM_LV2ENTRIES
  {
    (iova / SPAGE_SIZE) % NUM_LV2ENTRIES
  }

  predicate InRange(pt: PageTable, iova: nat)
  {
    Lv1Index(iova) < |pt.lv1|
  }

  /** Structural shape: one counter per slot, full-length second-level tables. */
  predicate WellFormed(pt: PageTable)
  {
    && |pt.lv2entcnt| == |pt.lv1|
    && forall i :: 0 <= i < |pt.lv1| && pt.lv1[i].Lv2Table? ==> |pt.lv1[i].entries| == NUM_LV2ENTRIES
  }

  /** A first-level table of `n` unmapped slots with zeroed counters, as
      `domain_alloc` obtains it from the zeroing allocators. */
  function EmptyTable(n: nat): (pt: PageTable)
    ensures WellFormed(pt) && |pt.lv1| == n
    ensures forall a :: InRange(pt, a) ==> Lookup(pt, a).None?
  {
    PageTable(seq(n, _ => Lv1Unmapped), seq(n, _ => 0))
  }

  /** A freshly allocated (zeroed) second-level table. */
  function EmptyLv2(): (t: seq<Lv2Entry>)
    ensures |t| == NUM_LV2ENTRIES && forall j :: 0 <= j < |t| ==> t[j].Lv2Unmapped?
  {
    seq(NUM_LV2ENTRIES, _ => Lv2Unmapped)
  }

  // ---------------------------------------------------------------------
  // Live entries and the table invariant
  // ---------------------------------------------------------------------

  function Used(e: Lv2Entry): nat { if e.Lv2Unmapped? then 0 else 1 }

  /** Number of used entries of a second-level table. */
  function Live(t: seq<Lv2Entry>): nat
  {
    if |t| == 0 then 0 else Used(t[0]) + Live(t[1..])
  }

  /** Entries `[lo, hi)` of `t` replaced by `e`. */
  function Fill(t: seq<Lv2Entry>, lo: nat, hi: nat, e: Lv2Entry): (r: seq<Lv2Entry>)
    requires lo <= hi <= |t|
    ensures |r| == |t|
    ensures forall j :: 0 <= j < |t| ==> r[j] == if lo <= j < hi then e else t[j]
  {
    t[..lo] + seq(hi - lo, _ => e) + t[hi..]
  }

  /** Large pages occupy whole aligned runs: inside one run of
      `SPAGES_PER_LPAGE` entries, a large-page entry is repeated in every slot. */
  ghost predicate RunsAligned(t: seq<Lv2Entry>)
  {
    forall k, j ::
      0 <= k < |t| && 0 <= j < |t| && t[k].LargePage? && k / SPAGES_PER_LPAGE == j / SPAGES_PER_LPAGE
      ==> t[j] == t[k]
  }

  /** The table invariant: well formed, large-page runs aligned, and the
      counter of every slot holding a second-level table equals that table's
      number of used entries. (A slot without a table carries a stale
      counter, which the driver resets when it next allocates a table.) */
  ghost predicate Valid(pt: PageTable)
  {
    && WellFormed(pt)
    && forall i :: 0 <= i < |pt.lv1| && pt.lv1[i].Lv2Table? ==>
         RunsAligned(pt.lv1[i].entries) && pt.lv2entcnt[i] == Live(pt.lv1[i].entries)
  }

  lemma {:induction false} LiveConcat(a: seq<Lv2Entry>, b: seq<Lv2Entry>)
    ensures Live(a + b) == Live(a) + Live(b)
    decreases |a|
  {
    if |a| == 0 {
      assert a + b == b;
    } else {
      assert (a + b)[1..] == a[1..] + b;
      LiveConcat(a[1..], b);
    }
  }

  lemma {:induction false} LiveConst(n: nat, e: Lv2Entry)
    ensures Live(seq(n, _ => e)) == n * Used(e)
  {
    if n > 0 {
      assert seq(n, _ => e)[1..] == seq(n - 1, _ => e);
      LiveConst(n - 1, e);
    }
  }

  lemma {:induction false} LiveZero(t: seq<Lv2Entry>)
    ensures Live(t) == 0 <==> forall j :: 0 <= j < |t| ==> t[j].Lv2Unmapped?
  {
    if |t| > 0 {
      LiveZero(t[1..]);
      if Live(t) == 0 {
        forall j | 0 <= j < |t| ensures t[j].Lv2Unmapped? {
          if j > 0 { assert t[j] == t[1..][j - 1]; }
        }
      }
      if forall j :: 0 <= j < |t| ==> t[j].Lv2Unmapped? {
        forall j | 0 <= j < |t[1..]| ensures t[1..][j].Lv2Unmapped? {
          assert t[1..][j] == t[j + 1];
        }
      }
    }
  }

  lemma {:induction false} LiveFull(t: seq<Lv2Entry>)
    requires forall j :: 0 <= j < |t| ==> !t[j].Lv2Unmapped?
    ensures Live(t) == |t|
  {
    if |t| > 0 {
      forall j | 0 <= j < |t[1..]| ensures !t[1..][j].Lv2Unmapped? {
        assert t[1..][j] == t[j + 1];
      }
      LiveFull(t[1..]);
    }
  }

  /** Counting effect of overwriting a range of entries. */
  lemma LiveFill(t: seq<Lv2Entry>, lo: nat, hi: nat, e: Lv2Entry)
    requires lo <= hi <= |t|
    ensures Live(Fill(t, lo, hi, e)) + Live(t[lo..hi]) == Live(t) + (hi - lo) * Used(e)
  {
    LiveOfFill(t, lo, hi, e);
    LiveSplit(t, lo, hi);
  }

  lemma LiveOfFill(t: seq<Lv2Entry>, lo: nat, hi: nat, e: Lv2Entry)
    requires lo <= hi <= |t|
    ensures Live(Fill(t, lo, hi, e)) == Live(t[..lo]) + (hi - lo) * Used(e) + Live(t[hi..])
  {
    var c := seq(hi - lo, _ => e);
    assert Fill(t, lo, hi, e) == (t[..lo] + c) + t[hi..];
    LiveConcat(t[..lo] + c, t[hi..]);
    LiveConcat(t[..lo], c);
    LiveConst(hi - lo, e);
  }

  lemma LiveSplit(t: seq<Lv2Entry>, lo: nat, hi: nat)
    requires lo <= hi <= |t|
    ensures Live(t) == Live(t[..lo]) + Live(t[lo..hi]) + Live(t[hi..])
  {
    assert t == (t[..lo] + t[lo..hi]) + t[hi..];
    LiveConcat(t[..lo] + t[lo..hi], t[hi..]);
    LiveConcat(t[..lo], t[lo..hi]);
  }

  /** Counting effect of overwriting one entry. */
  lemma LiveUpdate(t: seq<Lv2Entry>, k: nat, e: Lv2Entry)
    requires k < |t|
    ensures Live(t[k := e]) == Live(t) - Used(t[k]) + Used(e)
  {
    assert t[k := e] == Fill(t, k, k + 1, e);
    LiveFill(t, k, k + 1, e);
    assert t[k..k + 1] == [t[k]];
    assert [t[k]][1..] == [];
  }

  // ---------------------------------------------------------------------
  // Address arithmetic
  // ---------------------------------------------------------------------

  /** How an address splits into slot, entry and offset. */
  lemma Decompose(a: nat)
    ensures a / SPAGE_SIZE == Lv1Index(a) * NUM_LV2ENTRIES + Lv2Index(a)
    ensures a % SECT_SIZE == Lv2Index(a) * SPAGE_SIZE + a % SPAGE_SIZE
    ensures a / LPAGE_SIZE == Lv1Index(a) * 16 + Lv2Index(a) / SPAGES_PER_LPAGE
    ensures a % LPAGE_SIZE == (Lv2Index(a) % SPAGES_PER_LPAGE) * SPAGE_SIZE + a % SPAGE_SIZE
  {
    var p := a / 4096;
    var o := a % 4096;
    var h := p / 256;
    var l := p % 256;
    assert a == 4096 * p + o;
    assert p == 256 * h + l;
    assert a == 1048576 * h + (4096 * l + o);
    assert a / 1048576 == h;
    assert a % 1048576 == 4096 * l + o;
    assert a / 65536 == 16 * h + l / 16;
    assert a % 65536 == (l % 16) * 4096 + o;
  }

  /** The address of entry `k` of slot `i`. */
  lemma Compose(i: nat, k: nat)
    requires k < NUM_LV2ENTRIES
    ensures Lv1Index(i * SECT_SIZE + k * SPAGE_SIZE) == i
    ensures Lv2Index(i * SECT_SIZE + k * SPAGE_SIZE) == k
  {
    var a := i * SECT_SIZE + k * SPAGE_SIZE;
    assert a == 1048576 * i + 4096 * k;
    assert a / 1048576 == i;
    assert a / 4096 == 256 * i + k;
  }

  /** Blocks of the three granules, in slot/entry terms. */
  lemma BlockOf(a: nat, iova: nat)
    ensures a / SECT_SIZE == iova / SECT_SIZE <==> Lv1Index(a) == Lv1Index(iova)
    ensures a / SPAGE_SIZE == iova / SPAGE_SIZE <==>
      Lv1Index(a) == Lv1Index(iova) && Lv2Index(a) == Lv2Index(iova)
    ensures a / LPAGE_SIZE == iova / LPAGE_SIZE <==>
      Lv1Index(a) == Lv1Index(iova) && Lv2Index(a) / SPAGES_PER_LPAGE == Lv2Index(iova) / SPAGES_PER_LPAGE
  {
    Decompose(a);
    Decompose(iova);
  }

  lemma AlignedRun(iova: nat)
    ensures iova % LPAGE_SIZE == 0 ==> Lv2Index(iova) % SPAGES_PER_LPAGE == 0
    ensures iova % LPAGE_SIZE == 0 ==> Lv2Index(iova) + SPAGES_PER_LPAGE <= NUM_LV2ENTRIES
  {
    Decompose(iova);
  }

  /** An offset inside any granule keeps the offset inside the 4 KiB page. */
  lemma PageOffset(b: nat, a: nat, g: nat)
    requires IsPageSize(g) && b % g == 0
    ensures (b + a % g) % SPAGE_SIZE == a % SPAGE_SIZE
  {
    var m := g / SPAGE_SIZE;
    assert g == SPAGE_SIZE * m;
    var kb := m * (b / g);
    var ka := m * (a / g);
    assert b == g * (b / g);
    assert b == SPAGE_SIZE * kb;
    assert a == g * (a / g) + a % g;
    assert a == SPAGE_SIZE * ka + a % g;
    ModAddPages(kb, a % g);
    ModAddPages(ka, a % g);
  }

  /** Whole pages do not change the offset in a page. */
  lemma ModAddPages(k: nat, r: nat)
    ensures (SPAGE_SIZE * k + r) % SPAGE_SIZE == r % SPAGE_SIZE
  {
    var q := r / SPAGE_SIZE;
    assert SPAGE_SIZE * k + r == SPAGE_SIZE * (k + q) + r % SPAGE_SIZE;
  }

  // ---------------------------------------------------------------------
  // Lookup (samsung_sysmmu_iova_to_phys)
  // ---------------------------------------------------------------------

  /** The translation of `iova`, `None` when nothing maps it. */
  function Lookup(pt: PageTable, iova: nat): (r: Option<nat>)
    requires WellFormed(pt) && InRange(pt, iova)
    ensures r.Some? <==> (pt.lv1[Lv1Index(iova)].Section? ||
      (pt.lv1[Lv1Index(iova)].Lv2Table? && !pt.lv1[Lv1Index(iova)].entries[Lv2Index(iova)].Lv2Unmapped?))
  {
    match pt.lv1[Lv1Index(iova)]
    case Lv1Unmapped => None
    case Section(pa, _) => Some(AlignDown(pa, SECT_SIZE) + iova % SECT_SIZE)
    case Lv2Table(t) =>
      match t[Lv2Index(iova)]
      case Lv2Unmapped => None
      case SmallPage(pa, _) => Some(AlignDown(pa, SPAGE_SIZE) + iova % SPAGE_SIZE)
      case LargePage(pa, _) => Some(AlignDown(pa, LPAGE_SIZE) + iova % LPAGE_SIZE)
  }

  /** Whatever the granule, a translation keeps the offset inside the 4 KiB page. */
  lemma LookupKeepsPageOffset(pt: PageTable, iova: nat)
    requires WellFormed(pt) && InRange(pt, iova) && Lookup(pt, iova).Some?
    ensures Lookup(pt, iova).value % SPAGE_SIZE == iova % SPAGE_SIZE
  {
    match pt.lv1[Lv1Index(iova)]
    case Section(pa, _) => PageOffset(AlignDown(pa, SECT_SIZE), iova, SECT_SIZE);
    case Lv2Table(t) =>
      match t[Lv2Index(iova)]
      case SmallPage(pa, _) =>
      case LargePage(pa, _) => PageOffset(AlignDown(pa, LPAGE_SIZE), iova, LPAGE_SIZE);
  }

  /** `samsung_sysmmu_iova_to_phys`: the translation, or 0 when unmapped. */
  function IovaToPhys(pt: PageTable, iova: nat): (phys: nat)
    requires WellFormed(pt) && InRange(pt, iova)
    ensures Lookup(pt, iova).None? ==> phys == 0
    ensures Lookup(pt, iova).Some? ==> phys == Lookup(pt, iova).value
  {
    Lookup(pt, iova).GetOr(0)
  }

  /** The granule of the mapping covering `iova`; 0 when none does. */
  function Granule(pt: PageTable, iova: nat): (g: nat)
    requires WellFormed(pt) && InRange(pt, iova)
    ensures g == 0 <==> Lookup(pt, iova).None?
    ensures g != 0 ==> IsPageSize(g)
  {
    match pt.lv1[Lv1Index(iova)]
    case Lv1Unmapped => 0
    case Section(_, _) => SECT_SIZE
    case Lv2Table(t) =>
      match t[Lv2Index(iova)]
      case Lv2Unmapped => 0
      case SmallPage(_, _) => SPAGE_SIZE
      case LargePage(_, _) => LPAGE_SIZE
  }

  /** Some address of the `size`-aligned block around `iova` is mapped. */
  ghost predicate BlockMapped(pt: PageTable, iova: nat, size: nat)
    requires WellFormed(pt) && size > 0
  {
    exists a: nat :: InRange(pt, a) && a / size == iova / size && Lookup(pt, a).Some?
  }

  // ---------------------------------------------------------------------
  // Map (alloc_lv2entry, lv1set_section, lv2set_page, samsung_sysmmu_map)
  // ---------------------------------------------------------------------

  /** `IOMMU_PRIV` mappings do not use I/O coherency: the cache bit is dropped. */
  function MapProt(prot: bv32): (p: bv32)
    ensures p & IOMMU_CACHE != 0 <==> prot & IOMMU_CACHE != 0 && prot & IOMMU_PRIV == 0
    ensures p | IOMMU_CACHE == prot | IOMMU_CACHE
  {
    if prot & IOMMU_PRIV != 0 then prot & !IOMMU_CACHE else prot
  }

  /** The shareable attribute of an entry is set exactly for cached mappings. */
  predicate Shareable(prot: bv32)
  {
    prot & IOMMU_CACHE != 0
  }

  /** `alloc_lv2entry`: make sure the slot of `iova` holds a second-level
      table. `oom` is the outcome of the slab allocation. */
  function AllocLv2Entry(pt: PageTable, iova: nat, oom: bool): (r: Result<PageTable>)
    requires WellFormed(pt) && InRange(pt, iova)
    ensures pt.lv1[Lv1Index(iova)].Section? ==> r == Err(EADDRINUSE)
    ensures pt.lv1[Lv1Index(iova)].Lv1Unmapped? && oom ==> r == Err(ENOMEM)
    ensures pt.lv1[Lv1Index(iova)].Lv1Unmapped? && !oom ==>
      r == Ok(PageTable(pt.lv1[Lv1Index(iova) := Lv2Table(EmptyLv2())], pt.lv2entcnt[Lv1Index(iova) := 0]))
    ensures pt.lv1[Lv1Index(iova)].Lv2Table? ==> r == Ok(pt)
    ensures r.Ok? ==> WellFormed(r.value) && |r.value.lv1| == |pt.lv1|
    ensures r.Ok? ==> r.value.lv1[Lv1Index(iova)].Lv2Table?
  {
    match pt.lv1[Lv1Index(iova)]
    case Section(_, _) => Err(EADDRINUSE)
    case Lv1Unmapped =>
      if oom then Err(ENOMEM)
      else Ok(PageTable(pt.lv1[Lv1Index(iova) := Lv2Table(EmptyLv2())], pt.lv2entcnt[Lv1Index(iova) := 0]))
    case Lv2Table(_) => Ok(pt)
  }

  /** Allocating a second-level table keeps the invariant and changes no translation. */
  lemma AllocLv2EntryPreserves(pt: PageTable, iova: nat, oom: bool)
    requires Valid(pt) && InRange(pt, iova)
    requires AllocLv2Entry(pt, iova, oom).Ok?
    ensures Valid(AllocLv2Entry(pt, iova, oom).value)
    ensures forall a :: InRange(pt, a) ==> Lookup(AllocLv2Entry(pt, iova, oom).value, a) == Lookup(pt, a)
  {
    if pt.lv1[Lv1Index(iova)].Lv1Unmapped? {
      AllocLv2EntryValid(pt, iova);
      AllocLv2EntryLookup(pt, iova);
    }
  }

  /** The fresh table of an unmapped slot keeps the invariant. */
  lemma AllocLv2EntryValid(pt: PageTable, iova: nat)
    requires Valid(pt) && InRange(pt, iova) && pt.lv1[Lv1Index(iova)].Lv1Unmapped?
    ensures Valid(AllocLv2Entry(pt, iova, false).value)
  {
    var i := Lv1Index(iova);
    var r := AllocLv2Entry(pt, iova, false).value;
    var e := EmptyLv2();
    assert r.lv1 == pt.lv1[i := Lv2Table(e)] && r.lv2entcnt == pt.lv2entcnt[i := 0];
    LiveZero(e);
    assert RunsAligned(e);
    forall k | 0 <= k < |r.lv1| && r.lv1[k].Lv2Table?
      ensures RunsAligned(r.lv1[k].entries) && r.lv2entcnt[k] == Live(r.lv1[k].entries)
    {
      if k != i {
        assert r.lv1[k] == pt.lv1[k];
      }
    }
  }

  /** The fresh table of an unmapped slot translates nothing. */
  lemma AllocLv2EntryLookup(pt: PageTable, iova: nat)
    requires WellFormed(pt) && InRange(pt, iova) && pt.lv1[Lv1Index(iova)].Lv1Unmapped?
    ensures forall a :: InRange(pt, a) ==> Lookup(AllocLv2Entry(pt, iova, false).value, a) == Lookup(pt, a)
  {
    var i := Lv1Index(iova);
    var r := AllocLv2Entry(pt, iova, false).value;
    var e := EmptyLv2();
    forall a | InRange(pt, a)
      ensures Lookup(r, a) == Lookup(pt, a)
    {
      if Lv1Index(a) == i {
        assert e[Lv2Index(a)].Lv2Unmapped?;
        assert Lookup(r, a) == None == Lookup(pt, a);
      } else {
        LookupSameSlot(r, pt, a);
      }
    }
  }

  /** Two tables agreeing on the first-level slot of `a` translate `a` alike. */
  lemma LookupSameSlot(p: PageTable, q: PageTable, a: nat)
    requires WellFormed(p) && WellFormed(q) && InRange(p, a) && InRange(q, a)
    requires p.lv1[Lv1Index(a)] == q.lv1[Lv1Index(a)]
    ensures Lookup(p, a) == Lookup(q, a)
  {
  }

  datatype SectionResult = SectionResult(pt: PageTable, status: Status, needSync: bool)

  /** `lv1set_section`: install a 1 MiB section in the slot of `iova`.
      `needSync` reports that an empty second-level table was discarded, so
      the caller must invalidate `[iova, iova + SECT_SIZE)` before returning. */
  function Lv1SetSection(pt: PageTable, iova: nat, paddr: nat, shareable: bool): (r: SectionResult)
    requires WellFormed(pt) && InRange(pt, iova)
    ensures pt.lv1[Lv1Index(iova)].Section? ==> r == SectionResult(pt, Failure(EADDRINUSE), false)
    ensures pt.lv1[Lv1Index(iova)].Lv2Table? && pt.lv2entcnt[Lv1Index(iova)] != 0 ==>
      r == SectionResult(pt, Failure(EADDRINUSE), false)
    ensures pt.lv1[Lv1Index(iova)].Lv2Table? && pt.lv2entcnt[Lv1Index(iova)] == 0 ==>
      r == SectionResult(PageTable(pt.lv1[Lv1Index(iova) := Section(paddr, shareable)],
                                   pt.lv2entcnt[Lv1Index(iova) := NUM_LV2ENTRIES]), Success, true)
    ensures pt.lv1[Lv1Index(iova)].Lv1Unmapped? ==>
      r == SectionResult(pt.(lv1 := pt.lv1[Lv1Index(iova) := Section(paddr, shareable)]), Success, false)
    ensures WellFormed(r.pt) && |r.pt.lv1| == |pt.lv1|
  {
    var i := Lv1Index(iova);
    match pt.lv1[i]
    case Section(_, _) => SectionResult(pt, Failure(EADDRINUSE), false)
    case Lv2Table(_) =>
      if pt.lv2entcnt[i] != 0 then SectionResult(pt, Failure(EADDRINUSE), false)
      else SectionResult(PageTable(pt.lv1[i := Section(paddr, shareable)], pt.lv2entcnt[i := NUM_LV2ENTRIES]), Success, true)
    case Lv1Unmapped => SectionResult(pt.(lv1 := pt.lv1[i := Section(paddr, shareable)]), Success, false)
  }

  /** The large-page loop of `lv2set_page` from its `i`-th iteration on: the
      run starts at `base`, entries `[base, base + i)` have been written in
      this call. On a used entry the written ones are cleared again. */
  function SetLargeRun(t: seq<Lv2Entry>, base: nat, i: nat, e: Lv2Entry): (r: (seq<Lv2Entry>, bool))
    requires base + SPAGES_PER_LPAGE <= |t| && i <= SPAGES_PER_LPAGE
    ensures r.1 <==> FreeBetween(t, base + i, base + SPAGES_PER_LPAGE)
    ensures r.1 ==> r.0 == Fill(t, base + i, base + SPAGES_PER_LPAGE, e)
    ensures !r.1 ==> r.0 == Fill(t, base, base + i, Lv2Unmapped)
    decreases SPAGES_PER_LPAGE - i
  {
    if i == SPAGES_PER_LPAGE then
      assert t == Fill(t, base + i, base + SPAGES_PER_LPAGE, e);
      (t, true)
    else if !t[base + i].Lv2Unmapped? then
      (Fill(t, base, base + i, Lv2Unmapped), false)
    else
      var t' := t[base + i := e];
      assert FreeBetween(t', base + i + 1, base + SPAGES_PER_LPAGE) <==> FreeBetween(t, base + i, base + SPAGES_PER_LPAGE) by {
        assert forall j :: base + i < j < |t| ==> t'[j] == t[j];
      }
      var r := SetLargeRun(t', base, i + 1, e);
      if r.1 then
        FillAfterSet(t, base + i, base + SPAGES_PER_LPAGE, e);
        r
      else
        FillUndoSet(t, base, base + i, e);
        r
  }

  /** Writing `e` at `k` and filling from `k + 1` fills from `k`. */
  lemma FillAfterSet(t: seq<Lv2Entry>, k: nat, hi: nat, e: Lv2Entry)
    requires k < hi <= |t|
    ensures Fill(t[k := e], k + 1, hi, e) == Fill(t, k, hi, e)
  {
    assert forall j :: 0 <= j < |t| ==> Fill(t[k := e], k + 1, hi, e)[j] == Fill(t, k, hi, e)[j];
  }

  /** Clearing through an entry that was written over an unused one is
      clearing up to it. */
  lemma FillUndoSet(t: seq<Lv2Entry>, lo: nat, k: nat, e: Lv2Entry)
    requires lo <= k < |t| && t[k].Lv2Unmapped?
    ensures Fill(t[k := e], lo, k + 1, Lv2Unmapped) == Fill(t, lo, k, Lv2Unmapped)
  {
    assert forall j :: 0 <= j < |t| ==> Fill(t[k := e], lo, k + 1, Lv2Unmapped)[j] == Fill(t, lo, k, Lv2Unmapped)[j];
  }

  /** Entries `[lo, hi)` are unused. */
  predicate FreeBetween(t: seq<Lv2Entry>, lo: nat, hi: nat)
    requires hi <= |t|
  {
    forall j :: lo <= j < hi ==> t[j].Lv2Unmapped?
  }

  /** The aligned run of sixteen entries starting at `idx` is unused. */
  predicate RunFree(t: seq<Lv2Entry>, idx: nat)
    requires idx + SPAGES_PER_LPAGE <= |t|
  {
    FreeBetween(t, idx, idx + SPAGES_PER_LPAGE)
  }

  /** The large-page loop, run from the start, either writes the whole run
      or leaves the table as it found it. */
  lemma LargeLoopOutcome(t: seq<Lv2Entry>, idx: nat, e: Lv2Entry)
    requires idx + SPAGES_PER_LPAGE <= |t|
    ensures SetLargeRun(t, idx, 0, e) ==
      if RunFree(t, idx) then (Fill(t, idx, idx + SPAGES_PER_LPAGE, e), true) else (t, false)
  {
    var r := SetLargeRun(t, idx, 0, e);
    if !r.1 {
      assert Fill(t, idx, idx, Lv2Unmapped) == t;
    }
  }

  datatype PageResult = PageResult(entries: seq<Lv2Entry>, count: int, status: Status)

  /** `lv2set_page`: write a small page at entry `idx`, or a large page as the
      aligned run starting at `idx`; `count` is the slot's live counter. The
      large-page branch is stated by its outcome; `LargeLoopOutcome` shows
      the entry-by-entry loop with its rollback (`SetLargeRun`) reaches it. */
  function Lv2SetPage(t: seq<Lv2Entry>, idx: nat, paddr: nat, size: nat, shareable: bool, count: int): (r: PageResult)
    requires |t| == NUM_LV2ENTRIES && idx < NUM_LV2ENTRIES
    requires size != SPAGE_SIZE ==> idx % SPAGES_PER_LPAGE == 0
    ensures size == SPAGE_SIZE ==> (r.status.Success? <==> t[idx].Lv2Unmapped?)
    ensures size == SPAGE_SIZE && r.status.Success? ==>
      r.entries == t[idx := SmallPage(paddr, shareable)] && r.count == count + 1
    ensures size != SPAGE_SIZE ==>
      (r.status.Success? <==> forall j :: idx <= j < idx + SPAGES_PER_LPAGE ==> t[j].Lv2Unmapped?)
    ensures size != SPAGE_SIZE && r.status.Success? ==>
      r.entries == Fill(t, idx, idx + SPAGES_PER_LPAGE, LargePage(paddr, shareable)) &&
      r.count == count + SPAGES_PER_LPAGE
    ensures r.status.Failure? ==> r == PageResult(t, count, Failure(EADDRINUSE))
  {
    if size == SPAGE_SIZE then
      if !t[idx].Lv2Unmapped? then PageResult(t, count, Failure(EADDRINUSE))
      else PageResult(t[idx := SmallPage(paddr, shareable)], count + 1, Success)
    else
      if RunFree(t, idx) then PageResult(Fill(t, idx, idx + SPAGES_PER_LPAGE, LargePage(paddr, shareable)), count + SPAGES_PER_LPAGE, Success)
      else PageResult(t, count, Failure(EADDRINUSE))
  }

  /** Entries `[idx, idx + SPAGES_PER_LPAGE)` exist and all hold `e`. */
  predicate LargeRunIs(t: seq<Lv2Entry>, idx: nat, e: Lv2Entry)
  {
    idx + SPAGES_PER_LPAGE <= |t| && forall j :: idx <= j < idx + SPAGES_PER_LPAGE ==> t[j] == e
  }

  datatype MapResult = MapResult(pt: PageTable, status: Status, sync: Option<Gather>)

  /** The sizes `samsung_sysmmu_map` can be asked for (its `pgsize_bitmap`),
      with a large page starting a whole run of second-level entries. */
  predicate MapRequest(pt: PageTable, iova: nat, size: nat)
  {
    && WellFormed(pt) && InRange(pt, iova) && IsPageSize(size)
    && (size == LPAGE_SIZE ==> iova % LPAGE_SIZE == 0)
  }

  /** `samsung_sysmmu_map`. A section goes to the first level; a page first
      ensures a second-level table (allocation outcome `oom`), then writes
      the entry or run. `sync` is the range a replaced empty table obliges
      the caller to invalidate synchronously. */
  function Map(pt: PageTable, iova: nat, paddr: nat, size: nat, prot: bv32, oom: bool): (r: MapResult)
    requires MapRequest(pt, iova, size)
    ensures WellFormed(r.pt) && |r.pt.lv1| == |pt.lv1|
    ensures r.status.Success? || r.status == Failure(EADDRINUSE) || r.status == Failure(ENOMEM)
    ensures r.status == Failure(ENOMEM) <==> oom && size != SECT_SIZE && pt.lv1[Lv1Index(iova)].Lv1Unmapped?
    ensures r.sync.Some? ==> size == SECT_SIZE && r.sync.value == Gather(iova, iova + SECT_SIZE)
    ensures r.sync.Some? <==>
      size == SECT_SIZE && pt.lv1[Lv1Index(iova)].Lv2Table? && pt.lv2entcnt[Lv1Index(iova)] == 0
    ensures r.status.Success? && size == SECT_SIZE ==>
      r.pt.lv1[Lv1Index(iova)] == Section(paddr, Shareable(MapProt(prot)))
    ensures r.status.Success? && size == SPAGE_SIZE ==>
      r.pt.lv1[Lv1Index(iova)].Lv2Table? &&
      r.pt.lv1[Lv1Index(iova)].entries[Lv2Index(iova)] == SmallPage(paddr, Shareable(MapProt(prot)))
    ensures r.status.Success? && size == LPAGE_SIZE ==>
      r.pt.lv1[Lv1Index(iova)].Lv2Table? &&
      LargeRunIs(r.pt.lv1[Lv1Index(iova)].entries, Lv2Index(iova), LargePage(paddr, Shareable(MapProt(prot))))
    ensures forall i :: 0 <= i < |pt.lv1| && i != Lv1Index(iova) ==>
      r.pt.lv1[i] == pt.lv1[i] && r.pt.lv2entcnt[i] == pt.lv2entcnt[i]
  {
    var shareable := Shareable(MapProt(prot));
    if size == SECT_SIZE then
      var s := Lv1SetSection(pt, iova, paddr, shareable);
      MapResult(s.pt, s.status, if s.needSync then Some(Gather(iova, iova + SECT_SIZE)) else None)
    else MapPage(pt, iova, paddr, size, shareable, oom)
  }

  /** The page branch of `samsung_sysmmu_map`: a second-level table for the
      slot of `iova`, then the small page or the large-page run. */
  function MapPage(pt: PageTable, iova: nat, paddr: nat, size: nat, shareable: bool, oom: bool): (r: MapResult)
    requires MapRequest(pt, iova, size) && size != SECT_SIZE
    ensures WellFormed(r.pt) && |r.pt.lv1| == |pt.lv1| && r.sync.None?
    ensures r.status.Success? || r.status == Failure(EADDRINUSE) || r.status == Failure(ENOMEM)
    ensures r.status == Failure(ENOMEM) ==> oom
    ensures r.status.Success? ==> r.pt.lv1[Lv1Index(iova)].Lv2Table?
    ensures r.status.Success? && size == SPAGE_SIZE ==>
      r.pt.lv1[Lv1Index(iova)].entries[Lv2Index(iova)] == SmallPage(paddr, shareable)
    ensures r.status.Success? && size == LPAGE_SIZE ==>
      LargeRunIs(r.pt.lv1[Lv1Index(iova)].entries, Lv2Index(iova), LargePage(paddr, shareable))
    ensures forall i :: 0 <= i < |pt.lv1| && i != Lv1Index(iova) ==>
      r.pt.lv1[i] == pt.lv1[i] && r.pt.lv2entcnt[i] == pt.lv2entcnt[i]
  {
    match AllocLv2Entry(pt, iova, oom)
    case Err(e) => MapResult(pt, Failure(e), None)
    case Ok(pt1) =>
      var i := Lv1Index(iova);
      AlignedRun(iova);
      var p := Lv2SetPage(pt1.lv1[i].entries, Lv2Index(iova), paddr, size, shareable, pt1.lv2entcnt[i]);
      MapResult(PageTable(pt1.lv1[i := Lv2Table(p.entries)], pt1.lv2entcnt[i := p.count]), p.status, None)
  }

  // ---------------------------------------------------------------------
  // Unmap (samsung_sysmmu_unmap)
  // ---------------------------------------------------------------------

  /** `iommu_iotlb_gather_add_page` reduced to its range bookkeeping: the
      gather grows to cover `[iova, iova + size)`. */
  function AddRange(g: Gather, iova: nat, size: nat): (r: Gather)
    ensures r.start <= g.start && r.start <= iova && g.end <= r.end && iova + size <= r.end
    ensures (r.start == g.start || r.start == iova) && (r.end == g.end || r.end == iova + size)
  {
    Gather(if iova < g.start then iova else g.start, if iova + size > g.end then iova + size else g.end)
  }

  datatype UnmapResult = UnmapResult(pt: PageTable, size: nat, gather: Gather)

  /** What the IOMMU core guarantees of an unmap request: an unmap of 64 KiB
      or more is aligned to 64 KiB (it passes page sizes that `iova` is
      aligned to). */
  predicate UnmapRequest(pt: PageTable, iova: nat, size: nat)
  {
    && WellFormed(pt) && InRange(pt, iova)
    && (size >= LPAGE_SIZE ==> iova % LPAGE_SIZE == 0)
  }

  /** The mapping at `iova` is a section or large page bigger than `size`:
      the driver refuses to split it. */
  predicate TooSmall(pt: PageTable, iova: nat, size: nat)
    requires WellFormed(pt) && InRange(pt, iova)
  {
    (pt.lv1[Lv1Index(iova)].Section? && size < SECT_SIZE) ||
    (pt.lv1[Lv1Index(iova)].Lv2Table? && pt.lv1[Lv1Index(iova)].entries[Lv2Index(iova)].LargePage? && size < LPAGE_SIZE)
  }

  /** `samsung_sysmmu_unmap`: remove the mapping covering `iova` and report
      its size, 0 on a granularity error. */
  function Unmap(pt: PageTable, iova: nat, size: nat, gather: Gather): (r: UnmapResult)
    requires UnmapRequest(pt, iova, size)
    ensures WellFormed(r.pt) && |r.pt.lv1| == |pt.lv1|
    ensures TooSmall(pt, iova, size) ==> r == UnmapResult(pt, 0, gather)
    ensures !TooSmall(pt, iova, size) ==> r.gather == AddRange(gather, iova, r.size)
    ensures pt.lv1[Lv1Index(iova)].Section? && size >= SECT_SIZE ==>
      r.size == SECT_SIZE && r.pt == pt.(lv1 := pt.lv1[Lv1Index(iova) := Lv1Unmapped])
    ensures pt.lv1[Lv1Index(iova)].Lv1Unmapped? ==> r.pt == pt && r.size == Min(size, SECT_SIZE)
    ensures pt.lv1[Lv1Index(iova)].Lv2Table? ==>
      var i := Lv1Index(iova);
      var t := pt.lv1[i].entries;
      var k := Lv2Index(iova);
      && (t[k].Lv2Unmapped? ==> r.pt == pt && r.size == SPAGE_SIZE)
      && (t[k].SmallPage? ==>
            && r.size == SPAGE_SIZE
            && r.pt == PageTable(pt.lv1[i := Lv2Table(t[k := Lv2Unmapped])], pt.lv2entcnt[i := pt.lv2entcnt[i] - 1]))
      && (t[k].LargePage? && size >= LPAGE_SIZE ==>
            && r.size == LPAGE_SIZE
            && k + SPAGES_PER_LPAGE <= |t|
            && r.pt == PageTable(pt.lv1[i := Lv2Table(Fill(t, k, k + SPAGES_PER_LPAGE, Lv2Unmapped))],
                                 pt.lv2entcnt[i := pt.lv2entcnt[i] - SPAGES_PER_LPAGE]))
  {
    var i := Lv1Index(iova);
    match pt.lv1[i]
    case Section(_, _) =>
      if size < SECT_SIZE then UnmapResult(pt, 0, gather)
      else UnmapResult(pt.(lv1 := pt.lv1[i := Lv1Unmapped]), SECT_SIZE, AddRange(gather, iova, SECT_SIZE))
    case Lv1Unmapped =>
      var s := if size > SECT_SIZE then SECT_SIZE else size;
      UnmapResult(pt, s, AddRange(gather, iova, s))
    case Lv2Table(t) =>
      var k := Lv2Index(iova);
      match t[k]
      case Lv2Unmapped => UnmapResult(pt, SPAGE_SIZE, AddRange(gather, iova, SPAGE_SIZE))
      case SmallPage(_, _) =>
        UnmapResult(PageTable(pt.lv1[i := Lv2Table(t[k := Lv2Unmapped])], pt.lv2entcnt[i := pt.lv2entcnt[i] - 1]),
                    SPAGE_SIZE, AddRange(gather, iova, SPAGE_SIZE))
      case LargePage(_, _) =>
        if size < LPAGE_SIZE then UnmapResult(pt, 0, gather)
        else
          AlignedRun(iova);
          UnmapResult(PageTable(pt.lv1[i := Lv2Table(Fill(t, k, k + SPAGES_PER_LPAGE, Lv2Unmapped))],
                                pt.lv2entcnt[i := pt.lv2entcnt[i] - SPAGES_PER_LPAGE]),
                      LPAGE_SIZE, AddRange(gather, iova, LPAGE_SIZE))
  }

  // ---------------------------------------------------------------------
  // Properties of Map and Unmap
  // ---------------------------------------------------------------------

  /** Inside an aligned run, the run and the 64 KiB block coincide. */
  lemma RunBlock(idx: nat, j: nat)
    requires idx % SPAGES_PER_LPAGE == 0
    ensures j / SPAGES_PER_LPAGE == idx / SPAGES_PER_LPAGE <==> idx <= j < idx + SPAGES_PER_LPAGE
  {
  }

  /** Writing a small page over an unused entry keeps the runs aligned. */
  lemma SmallPageKeeps(t: seq<Lv2Entry>, idx: nat, e: Lv2Entry)
    requires idx < |t| && t[idx].Lv2Unmapped? && e.SmallPage?
    requires RunsAligned(t)
    ensures RunsAligned(t[idx := e])
    ensures Live(t[idx := e]) == Live(t) + 1
  {
    LiveUpdate(t, idx, e);
  }

  /** Filling an unused aligned run with one large page keeps the runs aligned. */
  lemma LargeRunKeeps(t: seq<Lv2Entry>, idx: nat, e: Lv2Entry)
    requires idx % SPAGES_PER_LPAGE == 0 && idx + SPAGES_PER_LPAGE <= |t|
    requires forall j :: idx <= j < idx + SPAGES_PER_LPAGE ==> t[j].Lv2Unmapped?
    requires e.LargePage? && RunsAligned(t)
    ensures RunsAligned(Fill(t, idx, idx + SPAGES_PER_LPAGE, e))
    ensures Live(Fill(t, idx, idx + SPAGES_PER_LPAGE, e)) == Live(t) + SPAGES_PER_LPAGE
  {
    var u := Fill(t, idx, idx + SPAGES_PER_LPAGE, e);
    LiveFill(t, idx, idx + SPAGES_PER_LPAGE, e);
    LiveZero(t[idx..idx + SPAGES_PER_LPAGE]);
    forall k, j | 0 <= k < |u| && 0 <= j < |u| && u[k].LargePage? && k / SPAGES_PER_LPAGE == j / SPAGES_PER_LPAGE
      ensures u[j] == u[k]
    {
      RunBlock(idx, k);
      RunBlock(idx, j);
      if !(idx <= k < idx + SPAGES_PER_LPAGE) {
        assert t[k].LargePage? && t[j] == t[k];
      }
    }
  }

  /** A successful `lv2set_page` keeps the runs aligned and the counter exact. */
  lemma Lv2SetPageKeeps(t: seq<Lv2Entry>, idx: nat, paddr: nat, size: nat, shareable: bool, count: int)
    requires |t| == NUM_LV2ENTRIES && idx < NUM_LV2ENTRIES
    requires size != SPAGE_SIZE ==> idx % SPAGES_PER_LPAGE == 0
    requires RunsAligned(t) && count == Live(t)
    ensures RunsAligned(Lv2SetPage(t, idx, paddr, size, shareable, count).entries)
    ensures Lv2SetPage(t, idx, paddr, size, shareable, count).count == Live(Lv2SetPage(t, idx, paddr, size, shareable, count).entries)
  {
    var r := Lv2SetPage(t, idx, paddr, size, shareable, count);
    if r.status.Success? {
      if size == SPAGE_SIZE {
        SmallPageKeeps(t, idx, SmallPage(paddr, shareable));
      } else {
        LargeRunKeeps(t, idx, LargePage(paddr, shareable));
      }
    }
  }

  /** A map that fails leaves the table as it was: a freshly allocated
      second-level table cannot make `lv2set_page` fail. */
  lemma MapFailureUnchanged(pt: PageTable, iova: nat, paddr: nat, size: nat, prot: bv32, oom: bool)
    requires MapRequest(pt, iova, size)
    requires Map(pt, iova, paddr, size, prot, oom).status.Failure?
    ensures Map(pt, iova, paddr, size, prot, oom).pt == pt
    ensures Map(pt, iova, paddr, size, prot, oom).sync.None?
  {
    var i := Lv1Index(iova);
    if size != SECT_SIZE && pt.lv1[i].Lv1Unmapped? && !oom {
      AlignedRun(iova);
      assert false;
    } else if size != SECT_SIZE && pt.lv1[i].Lv2Table? {
      assert pt.lv1[i := pt.lv1[i]] == pt.lv1;
      assert pt.lv2entcnt[i := pt.lv2entcnt[i]] == pt.lv2entcnt;
    }
  }

  /** `samsung_sysmmu_map` keeps the table invariant. */
  lemma MapPreservesValid(pt: PageTable, iova: nat, paddr: nat, size: nat, prot: bv32, oom: bool)
    requires Valid(pt) && MapRequest(pt, iova, size)
    ensures Valid(Map(pt, iova, paddr, size, prot, oom).pt)
  {
    if size != SECT_SIZE && AllocLv2Entry(pt, iova, oom).Ok? {
      var pt1 := AllocLv2Entry(pt, iova, oom).value;
      AllocLv2EntryPreserves(pt, iova, oom);
      AlignedRun(iova);
      var i := Lv1Index(iova);
      Lv2SetPageKeeps(pt1.lv1[i].entries, Lv2Index(iova), paddr, size, Shareable(MapProt(prot)), pt1.lv2entcnt[i]);
    }
  }

  /** A section map, seen from one address. */
  lemma MapSectionAt(pt: PageTable, iova: nat, paddr: nat, prot: bv32, oom: bool, a: nat)
    requires MapRequest(pt, iova, SECT_SIZE) && InRange(pt, a)
    requires Map(pt, iova, paddr, SECT_SIZE, prot, oom).status.Success?
    ensures Lv1Index(a) == Lv1Index(iova) ==>
      Lookup(Map(pt, iova, paddr, SECT_SIZE, prot, oom).pt, a) == Some(AlignDown(paddr, SECT_SIZE) + a % SECT_SIZE)
    ensures Lv1Index(a) != Lv1Index(iova) ==>
      Lookup(Map(pt, iova, paddr, SECT_SIZE, prot, oom).pt, a) == Lookup(pt, a)
  {
  }

  /** A page map, seen from one entry of the same slot. */
  lemma MapPageEntry(pt: PageTable, iova: nat, paddr: nat, size: nat, prot: bv32, oom: bool, k: nat)
    requires MapRequest(pt, iova, size) && size != SECT_SIZE && k < NUM_LV2ENTRIES
    requires Map(pt, iova, paddr, size, prot, oom).status.Success?
    ensures Map(pt, iova, paddr, size, prot, oom).pt.lv1[Lv1Index(iova)].Lv2Table?
    ensures !pt.lv1[Lv1Index(iova)].Section?
    ensures var t := Map(pt, iova, paddr, size, prot, oom).pt.lv1[Lv1Index(iova)].entries;
      var e := if size == SPAGE_SIZE then SmallPage(paddr, Shareable(MapProt(prot))) else LargePage(paddr, Shareable(MapProt(prot)));
      var prev := if pt.lv1[Lv1Index(iova)].Lv2Table? then pt.lv1[Lv1Index(iova)].entries[k] else Lv2Unmapped;
      && (size == SPAGE_SIZE ==> t[k] == if k == Lv2Index(iova) then e else prev)
      && (size == LPAGE_SIZE ==> t[k] == if k / SPAGES_PER_LPAGE == Lv2Index(iova) / SPAGES_PER_LPAGE then e else prev)
  {
    AlignedRun(iova);
    if size == LPAGE_SIZE {
      RunBlock(Lv2Index(iova), k);
    }
  }

  /** A small-page map, seen from one address of the same slot. */
  lemma MapSmallAt(pt: PageTable, iova: nat, paddr: nat, prot: bv32, oom: bool, a: nat)
    requires MapRequest(pt, iova, SPAGE_SIZE) && InRange(pt, a) && Lv1Index(a) == Lv1Index(iova)
    requires Map(pt, iova, paddr, SPAGE_SIZE, prot, oom).status.Success?
    ensures Lv2Index(a) == Lv2Index(iova) ==>
      Lookup(Map(pt, iova, paddr, SPAGE_SIZE, prot, oom).pt, a) == Some(AlignDown(paddr, SPAGE_SIZE) + a % SPAGE_SIZE)
    ensures Lv2Index(a) != Lv2Index(iova) ==>
      Lookup(Map(pt, iova, paddr, SPAGE_SIZE, prot, oom).pt, a) == Lookup(pt, a)
  {
    MapPageEntry(pt, iova, paddr, SPAGE_SIZE, prot, oom, Lv2Index(a));
  }

  /** A large-page map, seen from one address of the same slot. */
  lemma MapLargeAt(pt: PageTable, iova: nat, paddr: nat, prot: bv32, oom: bool, a: nat)
    requires MapRequest(pt, iova, LPAGE_SIZE) && InRange(pt, a) && Lv1Index(a) == Lv1Index(iova)
    requires Map(pt, iova, paddr, LPAGE_SIZE, prot, oom).status.Success?
    ensures Lv2Index(a) / SPAGES_PER_LPAGE == Lv2Index(iova) / SPAGES_PER_LPAGE ==>
      Lookup(Map(pt, iova, paddr, LPAGE_SIZE, prot, oom).pt, a) == Some(AlignDown(paddr, LPAGE_SIZE) + a % LPAGE_SIZE)
    ensures Lv2Index(a) / SPAGES_PER_LPAGE != Lv2Index(iova) / SPAGES_PER_LPAGE ==>
      Lookup(Map(pt, iova, paddr, LPAGE_SIZE, prot, oom).pt, a) == Lookup(pt, a)
  {
    MapPageEntry(pt, iova, paddr, LPAGE_SIZE, prot, oom, Lv2Index(a));
  }

  /** `MapTranslates` at one address. */
  lemma MapTranslatesAt(pt: PageTable, iova: nat, paddr: nat, size: nat, prot: bv32, oom: bool, a: nat)
    requires MapRequest(pt, iova, size) && InRange(pt, a)
    requires Map(pt, iova, paddr, size, prot, oom).status.Success?
    ensures a / size == iova / size ==>
      Lookup(Map(pt, iova, paddr, size, prot, oom).pt, a) == Some(AlignDown(paddr, size) + a % size)
    ensures a / size != iova / size ==>
      Lookup(Map(pt, iova, paddr, size, prot, oom).pt, a) == Lookup(pt, a)
  {
    BlockOf(a, iova);
    if size == SECT_SIZE {
      MapSectionAt(pt, iova, paddr, prot, oom, a);
    } else if Lv1Index(a) != Lv1Index(iova) {
      assert Map(pt, iova, paddr, size, prot, oom).pt.lv1[Lv1Index(a)] == pt.lv1[Lv1Index(a)];
    } else if size == SPAGE_SIZE {
      MapSmallAt(pt, iova, paddr, prot, oom, a);
    } else {
      MapLargeAt(pt, iova, paddr, prot, oom, a);
    }
  }

  /** After a successful map every address of the `size`-aligned block
      around `iova` translates to the same offset in the `size`-aligned
      block around `paddr`, and no other translation changes. */
  lemma MapTranslates(pt: PageTable, iova: nat, paddr: nat, size: nat, prot: bv32, oom: bool)
    requires MapRequest(pt, iova, size)
    requires Map(pt, iova, paddr, size, prot, oom).status.Success?
    ensures forall a: nat :: InRange(pt, a) && a / size == iova / size ==>
      Lookup(Map(pt, iova, paddr, size, prot, oom).pt, a) == Some(AlignDown(paddr, size) + a % size)
    ensures forall a: nat :: InRange(pt, a) && a / size != iova / size ==>
      Lookup(Map(pt, iova, paddr, size, prot, oom).pt, a) == Lookup(pt, a)
  {
    forall a: nat | InRange(pt, a) {
      MapTranslatesAt(pt, iova, paddr, size, prot, oom, a);
    }
  }

  /** The address of a mapped entry of slot `i`, for the witnesses below. */
  lemma MappedEntryAddress(pt: PageTable, i: nat, j: nat)
    requires WellFormed(pt) && i < |pt.lv1| && pt.lv1[i].Lv2Table? && j < NUM_LV2ENTRIES
    requires !pt.lv1[i].entries[j].Lv2Unmapped?
    ensures InRange(pt, i * SECT_SIZE + j * SPAGE_SIZE)
    ensures Lookup(pt, i * SECT_SIZE + j * SPAGE_SIZE).Some?
    ensures Lv1Index(i * SECT_SIZE + j * SPAGE_SIZE) == i && Lv2Index(i * SECT_SIZE + j * SPAGE_SIZE) == j
  {
    Compose(i, j);
  }

  /** A map fails with `-EADDRINUSE` exactly when something already maps an
      address of the `size`-aligned block it was asked to fill. */
  lemma MapInUseIff(pt: PageTable, iova: nat, paddr: nat, size: nat, prot: bv32, oom: bool)
    requires Valid(pt) && MapRequest(pt, iova, size)
    ensures Map(pt, iova, paddr, size, prot, oom).status == Failure(EADDRINUSE) <==> BlockMapped(pt, iova, size)
  {
    if Map(pt, iova, paddr, size, prot, oom).status == Failure(EADDRINUSE) {
      MapInUseMapped(pt, iova, paddr, size, prot, oom);
    } else {
      MapNotInUseFree(pt, iova, paddr, size, prot, oom);
    }
  }

  lemma MapInUseMapped(pt: PageTable, iova: nat, paddr: nat, size: nat, prot: bv32, oom: bool)
    requires Valid(pt) && MapRequest(pt, iova, size)
    requires Map(pt, iova, paddr, size, prot, oom).status == Failure(EADDRINUSE)
    ensures BlockMapped(pt, iova, size)
  {
    var i := Lv1Index(iova);
    var k := Lv2Index(iova);
    AlignedRun(iova);
    if pt.lv1[i].Section? || (size == SPAGE_SIZE && pt.lv1[i].Lv2Table?) {
      assert InRange(pt, iova) && Lookup(pt, iova).Some?;
    } else {
      var t := pt.lv1[i].entries;
      var j: nat;
      if size == SECT_SIZE {
        LiveZero(t);
        j :| 0 <= j < |t| && !t[j].Lv2Unmapped?;
      } else {
        j :| k <= j < k + SPAGES_PER_LPAGE && !t[j].Lv2Unmapped?;
      }
      var w := i * SECT_SIZE + j * SPAGE_SIZE;
      MappedEntryAddress(pt, i, j);
      assert InRange(pt, w) && Lookup(pt, w).Some?;
      BlockOf(w, iova);
      if size == SECT_SIZE {
        assert w / SECT_SIZE == iova / SECT_SIZE;
      } else {
        RunBlock(k, j);
        assert w / LPAGE_SIZE == iova / LPAGE_SIZE;
      }
    }
  }

  lemma MapNotInUseFree(pt: PageTable, iova: nat, paddr: nat, size: nat, prot: bv32, oom: bool)
    requires Valid(pt) && MapRequest(pt, iova, size)
    requires Map(pt, iova, paddr, size, prot, oom).status != Failure(EADDRINUSE)
    ensures !BlockMapped(pt, iova, size)
  {
    var i := Lv1Index(iova);
    var k := Lv2Index(iova);
    AlignedRun(iova);
    forall a: nat | InRange(pt, a) && a / size == iova / size
      ensures Lookup(pt, a).None?
    {
      BlockOf(a, iova);
      if size == LPAGE_SIZE {
        RunBlock(k, Lv2Index(a));
      }
      if size == SECT_SIZE && pt.lv1[i].Lv2Table? {
        LiveZero(pt.lv1[i].entries);
      }
    }
  }

  /** A successful map leaves a mapping of granule `size` at `iova`. */
  lemma MapGranule(pt: PageTable, iova: nat, paddr: nat, size: nat, prot: bv32, oom: bool)
    requires MapRequest(pt, iova, size)
    requires Map(pt, iova, paddr, size, prot, oom).status.Success?
    ensures Granule(Map(pt, iova, paddr, size, prot, oom).pt, iova) == size
  {
    AlignedRun(iova);
    if size == LPAGE_SIZE {
      RunBlock(Lv2Index(iova), Lv2Index(iova));
    }
  }

  // Unmap

  /** Clearing a small page keeps the runs aligned. */
  lemma SmallRemoveKeeps(t: seq<Lv2Entry>, k: nat)
    requires k < |t| && t[k].SmallPage? && RunsAligned(t)
    ensures RunsAligned(t[k := Lv2Unmapped])
    ensures Live(t[k := Lv2Unmapped]) == Live(t) - 1
  {
    LiveUpdate(t, k, Lv2Unmapped);
  }

  /** Clearing a whole large-page run keeps the runs aligned and removes
      sixteen used entries. */
  lemma LargeRemoveKeeps(t: seq<Lv2Entry>, k: nat)
    requires k % SPAGES_PER_LPAGE == 0 && k + SPAGES_PER_LPAGE <= |t|
    requires t[k].LargePage? && RunsAligned(t)
    ensures RunsAligned(Fill(t, k, k + SPAGES_PER_LPAGE, Lv2Unmapped))
    ensures Live(Fill(t, k, k + SPAGES_PER_LPAGE, Lv2Unmapped)) == Live(t) - SPAGES_PER_LPAGE
  {
    var run := t[k..k + SPAGES_PER_LPAGE];
    forall j | 0 <= j < |run| ensures !run[j].Lv2Unmapped? {
      RunBlock(k, k + j);
      assert run[j] == t[k + j] == t[k];
    }
    LiveFull(run);
    LiveFill(t, k, k + SPAGES_PER_LPAGE, Lv2Unmapped);
    var u := Fill(t, k, k + SPAGES_PER_LPAGE, Lv2Unmapped);
    forall a, b | 0 <= a < |u| && 0 <= b < |u| && u[a].LargePage? && a / SPAGES_PER_LPAGE == b / SPAGES_PER_LPAGE
      ensures u[b] == u[a]
    {
      RunBlock(k, a);
      RunBlock(k, b);
    }
  }

  /** `samsung_sysmmu_unmap` keeps the table invariant. */
  lemma UnmapPreservesValid(pt: PageTable, iova: nat, size: nat, gather: Gather)
    requires Valid(pt) && UnmapRequest(pt, iova, size)
    ensures Valid(Unmap(pt, iova, size, gather).pt)
  {
    var i := Lv1Index(iova);
    var k := Lv2Index(iova);
    if pt.lv1[i].Lv2Table? {
      var t := pt.lv1[i].entries;
      if t[k].SmallPage? {
        SmallRemoveKeeps(t, k);
      } else if t[k].LargePage? && size >= LPAGE_SIZE {
        AlignedRun(iova);
        LargeRemoveKeeps(t, k);
      }
    }
  }

  /** `UnmapClears` at one address. */
  lemma UnmapClearsAt(pt: PageTable, iova: nat, size: nat, gather: Gather, a: nat)
    requires UnmapRequest(pt, iova, size) && InRange(pt, a)
    requires Lookup(pt, iova).Some? && !TooSmall(pt, iova, size)
    ensures Unmap(pt, iova, size, gather).size == Granule(pt, iova)
    ensures var g := Granule(pt, iova);
      Lookup(Unmap(pt, iova, size, gather).pt, a) == if a / g == iova / g then None else Lookup(pt, a)
  {
    var i := Lv1Index(iova);
    var k := Lv2Index(iova);
    BlockOf(a, iova);
    AlignedRun(iova);
    if pt.lv1[i].Lv2Table? && pt.lv1[i].entries[k].LargePage? {
      RunBlock(k, Lv2Index(a));
    }
  }

  /** Unmapping an address that is mapped, with a size the mapping fits in,
      removes exactly the mapping's block and reports its granule. */
  lemma UnmapClears(pt: PageTable, iova: nat, size: nat, gather: Gather)
    requires UnmapRequest(pt, iova, size)
    requires Lookup(pt, iova).Some? && !TooSmall(pt, iova, size)
    ensures Unmap(pt, iova, size, gather).size == Granule(pt, iova)
    ensures forall a: nat :: InRange(pt, a) && a / Granule(pt, iova) == iova / Granule(pt, iova) ==>
      Lookup(Unmap(pt, iova, size, gather).pt, a).None?
    ensures forall a: nat :: InRange(pt, a) && a / Granule(pt, iova) != iova / Granule(pt, iova) ==>
      Lookup(Unmap(pt, iova, size, gather).pt, a) == Lookup(pt, a)
  {
    forall a: nat | InRange(pt, a) {
      UnmapClearsAt(pt, iova, size, gather, a);
    }
  }

  /** Mapping a block and unmapping it again restores every translation
      and reports the mapped size. */
  lemma MapThenUnmap(pt: PageTable, iova: nat, paddr: nat, size: nat, prot: bv32, oom: bool, gather: Gather)
    requires Valid(pt) && MapRequest(pt, iova, size) && iova % size == 0
    requires Map(pt, iova, paddr, size, prot, oom).status.Success?
    ensures UnmapRequest(Map(pt, iova, paddr, size, prot, oom).pt, iova, size)
    ensures Unmap(Map(pt, iova, paddr, size, prot, oom).pt, iova, size, gather).size == size
    ensures forall a: nat :: InRange(pt, a) ==>
      Lookup(Unmap(Map(pt, iova, paddr, size, prot, oom).pt, iova, size, gather).pt, a) == Lookup(pt, a)
  {
    var m := Map(pt, iova, paddr, size, prot, oom).pt;
    if size == SECT_SIZE {
      assert iova % LPAGE_SIZE == 0;
    }
    MapGranule(pt, iova, paddr, size, prot, oom);
    MapTranslates(pt, iova, paddr, size, prot, oom);
    assert Lookup(m, iova).Some?;
    MapInUseIff(pt, iova, paddr, size, prot, oom);
    assert !BlockMapped(pt, iova, size);
    UnmapRestores(pt, m, iova, size, gather);
  }

  /** Unmapping a block that was unmapped in `pt` and is the only change
      from `pt` to `m` gives back every translation of `pt`. */
  lemma UnmapRestores(pt: PageTable, m: PageTable, iova: nat, size: nat, gather: Gather)
    requires WellFormed(pt) && size > 0 && |m.lv1| == |pt.lv1|
    requires UnmapRequest(m, iova, size) && Lookup(m, iova).Some? && !TooSmall(m, iova, size)
    requires Granule(m, iova) == size && !BlockMapped(pt, iova, size)
    requires forall a: nat :: InRange(pt, a) && a / size != iova / size ==> Lookup(m, a) == Lookup(pt, a)
    ensures forall a: nat :: InRange(pt, a) ==> Lookup(Unmap(m, iova, size, gather).pt, a) == Lookup(pt, a)
  {
    UnmapClears(m, iova, size, gather);
    var u := Unmap(m, iova, size, gather).pt;
    forall a: nat | InRange(pt, a)
      ensures Lookup(u, a) == Lookup(pt, a)
    {
      if a / size == iova / size {
        assert Lookup(u, a).None?;
        assert Lookup(pt, a).None?;
      } else {
        assert Lookup(u, a) == Lookup(m, a);
      }
    }
  }
}
