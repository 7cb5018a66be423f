/**
 The boot loader: its bump allocator over the largest usable region, map_page as unrolled code,
 and vmm_init over a whole memory map.
 */
module Loaders {
  import opened Bits
  import opened RadixTree
  import opened LoaderPaging

  const MMAP_USABLE := 1
  const MMAP_BOOTLOADER_RECLAIMABLE := 0x1000
  const MMAP_KERNEL_AND_MODULES := 0x1001

  const MEM_PHYS_OFFSET: Word := 0xffff_8000_0000_0000
  const KERNEL_OFFSET: Word := 0xffff_ffff_8000_0000

  datatype MmapEntry = MmapEntry(base: Word, length: Word, kind: nat)

  predicate Usable(e: MmapEntry) {
    e.kind == MMAP_USABLE || e.kind == MMAP_BOOTLOADER_RECLAIMABLE || e.kind == MMAP_KERNEL_AND_MODULES
  }

  /** The kinds of entry the allocator may take memory from: usable, the boot loader's own, and the kernel's. */
  const FREE_KINDS := {1, 0x1000, 0x1001}

  /** The first of the longest free entries. */
  ghost predicate FirstLargest(memmap: seq<MmapEntry>, i: nat) {
    && i < |memmap| && memmap[i].kind in FREE_KINDS && 0 < memmap[i].length
    && (forall j :: 0 <= j < |memmap| && memmap[j].kind in FREE_KINDS ==> memmap[j].length <= memmap[i].length)
    && (forall j :: 0 <= j < i && memmap[j].kind in FREE_KINDS ==> memmap[j].length < memmap[i].length)
  }

  lemma FirstLargestUnique(memmap: seq<MmapEntry>, i: nat, j: nat)
    requires FirstLargest(memmap, i) && FirstLargest(memmap, j)
    ensures i == j
  {
  }

  /** What one of the three unrolled levels finds, and that taking or making the link keeps the tree. */
  lemma LevelFacts(pm: Pm, root: nat, tables: Tables, pages: Pages, page: nat, level: nat)
    requires Tree(pm, root, tables, pages) && Room(tables, pm.base)
    requires page < PAGES && 0 < level <= 3 && KeyOf(page, level) in tables
    ensures
      var k := KeyOf(page, level - 1);
      var slot := Slot(tables[KeyOf(page, level)], Index(page, level));
      var w := Read(pm.mem, slot);
      var (pm', next) := NextTable(pm, tables[KeyOf(page, level)], Index(page, level));
      var tables' := WithTable(tables, pm.base, k);
      && Tree(pm', root, tables', pages) && Room(tables', pm'.base)
      && pm'.base == BaseWith(tables, pm.base, k) && k in tables' && next == tables'[k]
      && if k in tables then
           pm' == pm && And(w, 1) == 1 && And(w, PAGE_MASK) == PAGE * tables[k]
         else
           var f := FrameUp(pm.base);
           && f < FRAMES && And(w, 1) == 0 && OrWord(PAGE * f, 7) == LinkWord(f)
           && pm' == Pm(ZeroFrame(pm.mem, f)[slot := LinkWord(f)], PAGE * f + PAGE)
  {
    hide LinkWord, Tree, Room, And, Index;
    var k := KeyOf(page, level - 1);
    PathEntry(pm, root, tables, pages, page, level);
    NextTableKeepsTree(pm, root, tables, pages, page, level);
    LowBit(Read(pm.mem, Slot(tables[KeyOf(page, level)], Index(page, level))));
    if k in tables {
      LinkRoundTrip(tables[k]);
      MaskedLink(LinkWord(tables[k]));
    } else {
      FrameFits(NextTable(pm, tables[KeyOf(page, level)], Index(page, level)).0, root, WithTable(tables, pm.base, k),
          pages, k);
      LinkRoundTrip(FrameUp(pm.base));
      AlignedLeaf(PAGE * FrameUp(pm.base), 7);
    }
  }

  lemma FrameFits(pm: Pm, root: nat, tables: Tables, pages: Pages, k: Key)
    requires Tree(pm, root, tables, pages) && k in tables
    ensures tables[k] < FRAMES
  {
  }

  lemma LowBit(w: Word)
    ensures And(w, 1) == w % 2
  {
    AndLowMask(w, 1);
  }

  lemma MaskedLink(w: Word)
    ensures And(w, PAGE_MASK) == PAGE * LinkFrame(w)
  {
    hide And, Shr, Shl;
    PowersInUse();
    Pow52();
    hide Pow2;
    var m := 0xf_ffff_ffff_ffff;
    ShlIsProduct(m, 12);
    AndShiftedMask(w, m, 12);
    ShrIsDivision(w, 12);
    AndLowMask(w / PAGE, 52);
    ShlIsProduct(w / PAGE, 12);
  }

  lemma Pow52()
    ensures Pow2(52) == 0x10_0000_0000_0000
  {
    assert Pow2(0) == 1;
    hide Pow2;
    PowByte(0);
    PowByte(8);
    PowByte(16);
    PowByte(24);
    PowByte(32);
    PowByte(40);
    PowNibble(48);
  }

  lemma EntryIndices(virt: Word)
    ensures PageOf(virt) < PAGES
    ensures Shr(And(virt, Shl(0x1ff, 39)), 39) == Index(PageOf(virt), 3)
    ensures Shr(And(virt, Shl(0x1ff, 30)), 30) == Index(PageOf(virt), 2)
    ensures Shr(And(virt, Shl(0x1ff, 21)), 21) == Index(PageOf(virt), 1)
    ensures Shr(And(virt, Shl(0x1ff, 12)), 12) == Index(PageOf(virt), 0)
  {
    EntryIndex(virt, 3);
    EntryIndex(virt, 2);
    EntryIndex(virt, 1);
    EntryIndex(virt, 0);
  }

  /** Masking a shifted field and shifting it down is shifting down and masking. */
  lemma EntryIndex(virt: Word, level: nat)
    requires level <= 3
    ensures Shr(And(virt, Shl(0x1ff, 12 + 9 * level)), 12 + 9 * level) == Index(PageOf(virt), level)
  {
    hide And, Shr, Shl;
    AndShiftedMask(virt, 0x1ff, 12 + 9 * level);
    ShrUndoesShl(And(Shr(virt, 12 + 9 * level), 0x1ff), 12 + 9 * level);
    ShiftedAddress(virt, level);
    IndexIgnoresHighBits(virt / PAGE, level);
  }

  // ---------------------------------------------------------------------------------------
  // vmm_init

  /** The frame that vmm_init gives a page: its own below 2^47, and the low copy's above. */
  function FrameOf(page: nat): nat { if page < HALF then page else page - HALF }

  /** Iterations of the inner loop for an entry. */
  function Steps(e: MmapEntry): nat { (e.length + (PAGE - 1)) / PAGE }

  /** Page q is among the first n pages from an entry's base, or is the high copy of one of them. */
  predicate Among(e: MmapEntry, n: nat, q: nat) {
    e.base / PAGE <= FrameOf(q) < e.base / PAGE + n
  }

  ghost predicate InDomain(memmap: seq<MmapEntry>, q: nat) {
    q < 0x10_0000 || exists e :: e in memmap && Among(e, Steps(e), q)
  }

  /** A present, writable leaf that reaches the page's frame; exactly frame | 3 when the bases are aligned. */
  ghost predicate Direct(leaf: Word, page: nat, aligned: bool) {
    && leaf / PAGE == FrameOf(page) && leaf % 2 == 1 && leaf / 2 % 2 == 1
    && (aligned ==> leaf == PAGE * FrameOf(page) + 3)
  }

  ghost predicate Aligned(memmap: seq<MmapEntry>) {
    forall e :: e in memmap ==> e.base % PAGE == 0
  }

  /** Pages written so far are direct and all others are as before. */
  ghost predicate DirectOn(pages0: Pages, pages: Pages, written: set<nat>, aligned: bool) {
    && pages.Keys == pages0.Keys + written
    && (forall q: nat :: q in written ==> Direct(pages[q], q, aligned))
    && (forall q: nat :: q in pages0 && q !in written ==> pages[q] == pages0[q])
  }

  lemma NothingWritten(pages: Pages, aligned: bool)
    ensures DirectOn(pages, pages, {}, aligned)
  {
  }

  lemma WhatIsWritten(pages0: Pages, pages: Pages, written: set<nat>, aligned: bool)
    requires DirectOn(pages0, pages, written, aligned)
    ensures pages.Keys == pages0.Keys + written
    ensures forall q :: q in written ==> Direct(pages[q], q, aligned)
    ensures forall q :: q in pages0 && q !in written ==> pages[q] == pages0[q]
  {
  }

  lemma DirectStep(pages0: Pages, pages: Pages, written: set<nat>, aligned: bool, q: nat, leaf: Word)
    requires DirectOn(pages0, pages, written, aligned) && Direct(leaf, q, aligned)
    ensures DirectOn(pages0, pages[q := leaf], written + {q}, aligned)
  {
  }

  lemma LowCopy(x: Word, aligned: bool)
    requires x < CANONICAL_HALF && (aligned ==> x % PAGE == 0)
    ensures PageOf(x) == x / PAGE && Direct(OrWord(x, 3), x / PAGE, aligned)
  {
    DirectLeaf(x);
  }

  lemma HighCopy(x: Word, aligned: bool)
    requires x < CANONICAL_HALF && (aligned ==> x % PAGE == 0)
    ensures x + MEM_PHYS_OFFSET < WORD_LIMIT
    ensures PageOf(x + MEM_PHYS_OFFSET) == x / PAGE + HALF && Direct(OrWord(x, 3), x / PAGE + HALF, aligned)
  {
    DirectLeaf(x);
    assert (x + MEM_PHYS_OFFSET) / PAGE == x / PAGE + 0xf_fff8_0000_0000;
  }

  lemma NoneAmong(e: MmapEntry)
    ensures forall q: nat :: !Among(e, 0, q)
  {
  }

  lemma AmongStep(e: MmapEntry, n: nat, p: nat)
    requires p == PAGE * n && p + e.base < CANONICAL_HALF
    ensures (p + e.base) / PAGE == e.base / PAGE + n
    ensures forall q: nat :: Among(e, n + 1, q) <==>
              Among(e, n, q) || q == (p + e.base) / PAGE || q == (p + e.base) / PAGE + HALF
  {
    var f := e.base / PAGE + n;
    DivModUnique(p + e.base, PAGE, f, e.base % PAGE);
    assert f < HALF;
    forall q: nat
      ensures Among(e, n + 1, q) <==>
                Among(e, n, q) || q == (p + e.base) / PAGE || q == (p + e.base) / PAGE + HALF
    {
      assert FrameOf(q) == f <==> q == f || q == f + HALF;
    }
  }

  lemma DomainStep(memmap: seq<MmapEntry>, i: nat)
    requires i < |memmap|
    ensures forall q: nat :: InDomain(memmap[..i + 1], q) <==>
              InDomain(memmap[..i], q) || Among(memmap[i], Steps(memmap[i]), q)
  {
    assert memmap[..i + 1] == memmap[..i] + [memmap[i]];
    assert forall e :: e in memmap[..i + 1] <==> e in memmap[..i] || e == memmap[i];
  }

  lemma DirectLeaf(x: Word)
    ensures OrWord(x, 3) / PAGE == x / PAGE && OrWord(x, 3) % 2 == 1 && OrWord(x, 3) / 2 % 2 == 1
    ensures x % PAGE == 0 ==> OrWord(x, 3) == x + 3
  {
    PowersInUse();
    OrKeepsHighBits(x, 3, 12);
    OrHalves(x, 3);
    OrHalves(x / 2, 1);
    if x % PAGE == 0 {
      AlignedLeaf(x, 3);
    }
  }

  /** A page and its copy at MEM_PHYS_OFFSET, as the words wrap. */
  function WithPair(pages: Pages, x: Word): Pages {
    pages[PageOf(x) := OrWord(x, 3)][PageOf((x + MEM_PHYS_OFFSET) % WORD_LIMIT) := OrWord(x, 3)]
  }

  /** The first n rounds of the inner loop for an entry. */
  function WithEntry(pages: Pages, e: MmapEntry, n: nat): Pages {
    if n == 0 then pages else WithPair(WithEntry(pages, e, n - 1), (PAGE * (n - 1) + e.base) % WORD_LIMIT)
  }

  /** The first n rounds of the loop over the low 4 GiB. */
  function WithLow(pages: Pages, n: nat): Pages
    requires n <= 0x10_0000
  {
    if n == 0 then pages else WithLow(pages, n - 1)[PageOf(PAGE * (n - 1)) := OrWord(PAGE * (n - 1), 3)]
  }

  /** All of vmm_init, write by write. */
  function WithMemmap(pages: Pages, memmap: seq<MmapEntry>): Pages {
    if memmap == [] then WithLow(pages, 0x10_0000)
    else
      var last := memmap[|memmap| - 1];
      WithEntry(WithMemmap(pages, memmap[..|memmap| - 1]), last, Steps(last))
  }

  lemma NextRound(p: nat)
    requires p % PAGE == 0
    ensures (p + PAGE) % PAGE == 0 && (p + PAGE) / PAGE == p / PAGE + 1 && PAGE * (p / PAGE) == p
  {
  }

  lemma {:induction false} LowIsDirect(pages: Pages, aligned: bool, n: nat) returns (written: set<nat>)
    requires n <= 0x10_0000
    ensures DirectOn(pages, WithLow(pages, n), written, aligned)
    ensures forall q: nat :: q in written <==> q < n
  {
    hide Direct, OrWord, PageOf, DirectOn;
    if n == 0 {
      written := {};
      NothingWritten(pages, aligned);
    } else {
      written := LowIsDirect(pages, aligned, n - 1);
      LowCopy(PAGE * (n - 1), aligned);
      DirectStep(pages, WithLow(pages, n - 1), written, aligned, n - 1, OrWord(PAGE * (n - 1), 3));
      written := written + {n - 1};
    }
  }

  lemma PairIsDirect(pages0: Pages, pages: Pages, before: set<nat>, aligned: bool, x: Word)
    requires DirectOn(pages0, pages, before, aligned) && x < CANONICAL_HALF && (aligned ==> x % PAGE == 0)
    ensures DirectOn(pages0, WithPair(pages, x), before + {x / PAGE} + {x / PAGE + HALF}, aligned)
  {
    hide Direct, OrWord, PageOf, DirectOn;
    LowCopy(x, aligned);
    HighCopy(x, aligned);
    DirectStep(pages0, pages, before, aligned, x / PAGE, OrWord(x, 3));
    DirectStep(pages0, pages[x / PAGE := OrWord(x, 3)], before + {x / PAGE}, aligned, x / PAGE + HALF, OrWord(x, 3));
  }

  lemma {:induction false} EntryIsDirect(pages0: Pages, pages: Pages, before: set<nat>, aligned: bool, e: MmapEntry,
      n: nat) returns (written: set<nat>)
    requires DirectOn(pages0, pages, before, aligned) && n <= Steps(e)
    requires e.base + e.length <= CANONICAL_HALF && (aligned ==> e.base % PAGE == 0)
    ensures DirectOn(pages0, WithEntry(pages, e, n), written, aligned)
    ensures forall q: nat :: q in written <==> q in before || Among(e, n, q)
    decreases n
  {
    hide Direct, OrWord, PageOf, DirectOn, WithPair, Among;
    if n == 0 {
      assert forall q: nat :: !Among(e, 0, q) by { NoneAmong(e); }
      written := before;
    } else {
      written := EntryIsDirect(pages0, pages, before, aligned, e, n - 1);
      var p := PAGE * (n - 1);
      AmongStep(e, n - 1, p);
      PairIsDirect(pages0, WithEntry(pages, e, n - 1), written, aligned, p + e.base);
      written := written + {(p + e.base) / PAGE} + {(p + e.base) / PAGE + HALF};
    }
  }

  lemma {:induction false} MemmapIsDirect(pages: Pages, aligned: bool, memmap: seq<MmapEntry>)
      returns (written: set<nat>)
    requires forall e :: e in memmap ==> e.base + e.length <= CANONICAL_HALF && (aligned ==> e.base % PAGE == 0)
    ensures DirectOn(pages, WithMemmap(pages, memmap), written, aligned)
    ensures forall q: nat :: q in written <==> InDomain(memmap, q)
  {
    hide DirectOn;
    if memmap == [] {
      written := LowIsDirect(pages, aligned, 0x10_0000);
    } else {
      var n := |memmap| - 1;
      var before := MemmapIsDirect(pages, aligned, memmap[..n]);
      assert memmap[..n + 1] == memmap;
      DomainStep(memmap, n);
      written := EntryIsDirect(pages, WithMemmap(pages, memmap[..n]), before, aligned, memmap[n], Steps(memmap[n]));
    }
  }

  /**
   What vmm_init leaves, for any map below 2^47: exactly the low 4 GiB and both copies of the entries'
   pages are written, each with its frame, and all other pages are left alone.
   */
  lemma MemmapPages(pages: Pages, memmap: seq<MmapEntry>)
    requires forall e :: e in memmap ==> e.base + e.length <= CANONICAL_HALF
    ensures
      var pages' := WithMemmap(pages, memmap);
      && (forall q: nat :: q in pages' <==> q in pages || InDomain(memmap, q))
      && (forall q: nat :: InDomain(memmap, q) ==> Direct(pages'[q], q, Aligned(memmap)))
      && (forall q: nat :: q in pages' && !InDomain(memmap, q) ==> pages'[q] == pages[q])
      && (pages == map[] ==> VmmPages(memmap, pages'))
  {
    hide Direct, DirectOn, InDomain, WithMemmap;
    var written := MemmapIsDirect(pages, Aligned(memmap), memmap);
    WhatIsWritten(pages, WithMemmap(pages, memmap), written, Aligned(memmap));
  }

  /** One round of the inner loop leaves direct pages exactly when its address lies below 2^47. */
  lemma PairIsDirectIff(pages: Pages, x: Word)
    requires x % PAGE == 0
    ensures
      var low, high := PageOf(x), PageOf((x + MEM_PHYS_OFFSET) % WORD_LIMIT);
      (Direct(WithPair(pages, x)[low], low, true) && Direct(WithPair(pages, x)[high], high, true))
      <==> x < CANONICAL_HALF
  {
    hide OrWord;
    CopyPage(x);
    DirectLeaf(x);
  }

  /** The copy is 2^47 further on, modulo 2^48. */
  lemma CopyPage(x: Word)
    ensures
      PageOf((x + MEM_PHYS_OFFSET) % WORD_LIMIT) == if PageOf(x) < HALF then PageOf(x) + HALF else PageOf(x) - HALF
  {
    var y := (x + MEM_PHYS_OFFSET) % WORD_LIMIT;
    assert y / PAGE == x / PAGE + 0xf_fff8_0000_0000 || y / PAGE == x / PAGE - 0x8_0000_0000;
  }

  /** One page at 2^47: its copy takes the place of page 0. */
  lemma HighEntryHidesPageZero(pm: Pm, root: nat, tables: Tables, pages: Pages)
    requires Tree(pm, root, tables, WithMemmap(pages, [MmapEntry(CANONICAL_HALF, PAGE, MMAP_USABLE)]))
    ensures
      var r := Linear(pm.mem, PAGE * root, 0);
      r.Mapped? && r.leaf / PAGE == HALF
  {
    hide Linear, Tree, OrWord, WithLow;
    var e := MmapEntry(CANONICAL_HALF, PAGE, MMAP_USABLE);
    CopyPage(CANONICAL_HALF);
    DirectLeaf(CANONICAL_HALF);
    assert Steps(e) == 1 && PageOf(CANONICAL_HALF) == HALF;
    assert WithMemmap(pages, [e]) == WithEntry(WithLow(pages, 0x10_0000), e, 1) by {
      assert [e][..0] == [];
    }
    assert WithEntry(WithLow(pages, 0x10_0000), e, 1)
        == WithPair(WithEntry(WithLow(pages, 0x10_0000), e, 0), CANONICAL_HALF);
    LinearReadsTree(pm, root, tables, WithMemmap(pages, [e]), 0);
  }

  /** The leaves vmm_init leaves in an empty tree. */
  ghost predicate VmmPages(memmap: seq<MmapEntry>, pages: Pages) {
    && (forall q: nat :: q in pages <==> InDomain(memmap, q))
    && (forall q: nat :: q in pages ==> Direct(pages[q], q, Aligned(memmap)))
  }

  /**
   What the processor sees after vmm_init: the low 4 GiB and the entries' pages at their own addresses,
   the entries' pages again at MEM_PHYS_OFFSET, and nothing else; all writable, and for the supervisor
   only if the bases are aligned.
   */
  lemma VmmInitTranslation(pm: Pm, root: nat, tables: Tables, pages: Pages, memmap: seq<MmapEntry>, va: Word)
    requires Tree(pm, root, tables, pages) && VmmPages(memmap, pages)
    ensures
      match Linear(pm.mem, PAGE * root, va)
      case Mapped(leaf, writable, user) =>
        && InDomain(memmap, PageOf(va)) && leaf / PAGE == FrameOf(PageOf(va))
        && writable && (Aligned(memmap) ==> !user && leaf % PAGE == 3)
      case NotPresent => !InDomain(memmap, PageOf(va))
      case _ => false
  {
    hide Linear, PageOf, Tree, Direct, LeafResult, Aligned, InDomain;
    LinearReadsTree(pm, root, tables, pages, va);
    if PageOf(va) in pages {
      DirectRead(pages[PageOf(va)], PageOf(va), Aligned(memmap));
    }
  }

  /** What the processor makes of a direct leaf. */
  lemma DirectRead(leaf: Word, page: nat, aligned: bool)
    requires Direct(leaf, page, aligned)
    ensures LeafResult(leaf) == Mapped(leaf, true, leaf / 4 % 2 == 1) && leaf / PAGE == FrameOf(page)
    ensures aligned ==> leaf / 4 % 2 == 0 && leaf % PAGE == 3
  {
    if aligned {
      DivModUnique(leaf, 4, 1024 * FrameOf(page), 3);
      DivModUnique(leaf / 4, 2, 512 * FrameOf(page), 0);
    }
  }

  /**
   The inner loop covers every page an entry touches exactly when the entry does not run past the
   page boundary its length rounds up to; a page-aligned base always satisfies this.
   */
  lemma EntryCoveredIff(e: MmapEntry)
    requires e.base + e.length <= CANONICAL_HALF
    ensures
      (forall a: nat :: e.base <= a < e.base + e.length ==> Among(e, Steps(e), a / PAGE))
        <==> e.length == 0 || FitsPages(e)
  {
    if e.length > 0 {
      var last: nat := e.base + e.length - 1;
      OwnPages(e);
      assert e.base <= last < e.base + e.length;
    }
  }

  /** The last byte of an entry lies in the last page its loop steps through. */
  predicate FitsPages(e: MmapEntry)
    requires e.length > 0
  {
    e.base % PAGE + (e.length - 1) % PAGE < PAGE
  }

  /** Some entry's loop maps both copies of the page. */
  ghost predicate Covered(memmap: seq<MmapEntry>, page: nat) {
    exists e :: e in memmap && Among(e, Steps(e), page)
  }

  /** The address and its copy at MEM_PHYS_OFFSET both reach the address's own frame. */
  predicate ReachedTwice(mem: Memory, cr3: nat, a: Word) {
    && a + 0xffff_8000_0000_0000 < WORD_LIMIT
    && var low, high := Linear(mem, cr3, a), Linear(mem, cr3, a + 0xffff_8000_0000_0000);
       low.Mapped? && high.Mapped? && low.leaf / PAGE == high.leaf / PAGE == a / PAGE
  }

  lemma AddressReachedIff(pm: Pm, root: nat, tables: Tables, pages: Pages, memmap: seq<MmapEntry>, a: Word)
    requires Tree(pm, root, tables, pages) && VmmPages(memmap, pages) && a < CANONICAL_HALF
    ensures ReachedTwice(pm.mem, PAGE * root, a) <==> Covered(memmap, a / PAGE)
  {
    hide Linear, Direct, OrWord, Tree, VmmPages;
    LowCopy(a, false);
    HighCopy(a, false);
    assert a / PAGE < HALF;
    VmmInitTranslation(pm, root, tables, pages, memmap, a);
    VmmInitTranslation(pm, root, tables, pages, memmap, a + MEM_PHYS_OFFSET);
    assert forall e :: Among(e, Steps(e), a / PAGE + HALF) <==> Among(e, Steps(e), a / PAGE);
    assert InDomain(memmap, a / PAGE + HALF) <==> Covered(memmap, a / PAGE);
  }

  /**
   After vmm_init every byte of an entry is reached at both addresses exactly when the entry's own loop
   reaches the page of its last byte, or some entry's loop does.
   */
  lemma EntryReachedIff(pm: Pm, root: nat, tables: Tables, pages: Pages, memmap: seq<MmapEntry>, e: MmapEntry)
    requires Tree(pm, root, tables, pages) && VmmPages(memmap, pages)
    requires e in memmap && e.length > 0 && e.base + e.length <= CANONICAL_HALF
    ensures
      (forall a: Word :: e.base <= a < e.base + e.length ==> ReachedTwice(pm.mem, PAGE * root, a))
      <==> FitsPages(e) || Covered(memmap, (e.base + e.length - 1) / PAGE)
  {
    hide Linear, Tree, VmmPages, ReachedTwice;
    var last: Word := e.base + e.length - 1;
    AddressReachedIff(pm, root, tables, pages, memmap, last);
    OwnPages(e);
    if FitsPages(e) {
      assert Covered(memmap, last / PAGE);
    }
    if Covered(memmap, last / PAGE) {
      forall a: Word | e.base <= a < e.base + e.length
        ensures ReachedTwice(pm.mem, PAGE * root, a)
      {
        AddressReachedIff(pm, root, tables, pages, memmap, a);
        assert a / PAGE == last / PAGE || Among(e, Steps(e), a / PAGE);
      }
    }
  }

  /** An entry's own loop can only miss the page of its last byte. */
  lemma OwnPages(e: MmapEntry)
    requires e.length > 0 && e.base + e.length <= CANONICAL_HALF
    ensures
      var last := (e.base + e.length - 1) / PAGE;
      && (Among(e, Steps(e), last) <==> FitsPages(e))
      && forall a: Word :: e.base <= a < e.base + e.length ==> a / PAGE == last || Among(e, Steps(e), a / PAGE)
  {
    var last: nat := e.base + e.length - 1;
    assert Steps(e) == (e.length - 1) / PAGE + 1;
    assert last / PAGE == e.base / PAGE + (e.length - 1) / PAGE + (if FitsPages(e) then 0 else 1);
    forall a: Word | e.base <= a < e.base + e.length
      ensures a / PAGE == last / PAGE || Among(e, Steps(e), a / PAGE)
    {
      assert e.base / PAGE <= a / PAGE <= last / PAGE < HALF;
    }
  }

  /** An entry of one page's length that straddles two pages: its second half is not mapped. */
  lemma UnalignedEntryIsMissed(pm: Pm, root: nat, tables: Tables, pages: Pages)
    requires Tree(pm, root, tables, pages) && VmmPages([MmapEntry(0x1_0000_0800, 0x1000, MMAP_USABLE)], pages)
    ensures Linear(pm.mem, PAGE * root, 0x1_0000_17ff) == NotPresent
  {
    hide Linear, Tree, VmmPages;
    VmmInitTranslation(pm, root, tables, pages, [MmapEntry(0x1_0000_0800, 0x1000, MMAP_USABLE)], 0x1_0000_17ff);
  }

  /** Only which pages the entries cover matters: not their order, not how they overlap. */
  lemma OrderAndOverlapIrrelevant(memmap: seq<MmapEntry>, memmap': seq<MmapEntry>, pages: Pages, pages': Pages)
    requires Aligned(memmap) && Aligned(memmap')
    requires forall q: nat :: InDomain(memmap, q) <==> InDomain(memmap', q)
    requires VmmPages(memmap, pages) && VmmPages(memmap', pages')
    ensures pages == pages'
  {
    assert forall q: nat :: q in pages <==> q in pages';
    assert forall q: nat :: q in pages ==> pages[q] == PAGE * FrameOf(q) + 3 == pages'[q];
  }

  // ---------------------------------------------------------------------------------------
  // Where new tables lie

  /** No table has moved, and new ones lie at or above the old base. */
  ghost predicate Stable(tables: Tables, base: nat, tables': Tables, base': nat) {
    && base <= base'
    && (forall k :: k in tables ==> k in tables' && tables'[k] == tables[k])
    && (forall k :: k in tables' ==> k in tables || base <= PAGE * tables'[k])
  }

  /** From a page boundary on, base has moved a page for each new table. */
  ghost predicate PagePerTable(tables: Tables, base: nat, tables': Tables, base': nat) {
    base % PAGE == 0 ==> base' % PAGE == 0 && base' - PAGE * |tables'| == base - PAGE * |tables|
  }

  ghost predicate Extends(tables: Tables, base: nat, tables': Tables, base': nat) {
    Stable(tables, base, tables', base') && PagePerTable(tables, base, tables', base')
  }

  lemma ExtendsItself(tables: Tables, base: nat)
    ensures Extends(tables, base, tables, base)
  {
  }

  lemma StableFurther(t0: Tables, b0: nat, t1: Tables, b1: nat, t2: Tables, b2: nat)
    requires Stable(t0, b0, t1, b1) && Stable(t1, b1, t2, b2)
    ensures Stable(t0, b0, t2, b2)
  {
    forall k | k in t2
      ensures k in t0 || b0 <= PAGE * t2[k]
    {
      assert k in t1 || b1 <= PAGE * t2[k];
    }
  }

  lemma ExtendsFurther(t0: Tables, b0: nat, t1: Tables, b1: nat, t2: Tables, b2: nat)
    requires Extends(t0, b0, t1, b1) && Extends(t1, b1, t2, b2)
    ensures Extends(t0, b0, t2, b2)
  {
    hide Stable;
    StableFurther(t0, b0, t1, b1, t2, b2);
  }

  lemma GrownStable(tables: Tables, base: nat, page: nat)
    ensures
      var (tables', base') := Grown(tables, base, page, 3);
      Stable(tables, base, tables', base')
  {
    GrownAbove(tables, base, page, 3);
    GrownFrom(tables, base, page, 3);
    hide Grown, Below;
  }

  lemma GrownPages(tables: Tables, base: nat, page: nat)
    ensures
      var (tables', base') := Grown(tables, base, page, 3);
      PagePerTable(tables, base, tables', base')
  {
    if base % PAGE == 0 {
      GrownBytes(tables, base, page, 3);
    }
  }

  lemma {:induction false} GrownAbove(tables: Tables, base: nat, page: nat, level: nat)
    ensures
      var tables' := Grown(tables, base, page, level).0;
      forall k :: k in tables' ==> k in tables || base <= PAGE * tables'[k]
    decreases level
  {
    if level == 0 {
    } else {
      var k := KeyOf(page, level - 1);
      var t, b := WithTable(tables, base, k), BaseWith(tables, base, k);
      GrownAbove(t, b, page, level - 1);
      GrownFrom(t, b, page, level - 1);
      hide Grown;
      assert base <= PAGE * FrameUp(base);
    }
  }

  lemma GrownExtends(t0: Tables, b0: nat, tables: Tables, base: nat, page: nat)
    requires Extends(t0, b0, tables, base)
    ensures
      var (tables', base') := Grown(tables, base, page, 3);
      Extends(t0, b0, tables', base')
  {
    GrownStable(tables, base, page);
    GrownPages(tables, base, page);
    hide Grown, PagePerTable, Stable;
    var (tables', base') := Grown(tables, base, page, 3);
    assert Extends(tables, base, tables', base');
    hide Extends;
    ExtendsFurther(t0, b0, tables, base, tables', base');
  }

  // ---------------------------------------------------------------------------------------
  // The whole start

  /** The image's page that a page shows, counting from KERNEL_OFFSET and round the address space. */
  function ImageIndex(q: nat): nat { (q + 0x8_0000) % PAGES }

  function ImagePages(size: nat): nat { (size + (PAGE - 1)) / PAGE }

  /** The first n rounds of the loop that maps the image. */
  function WithImage(pages: Pages, image: nat, n: nat): Pages {
    if n == 0 then pages
    else
      WithImage(pages, image, n - 1)[PageOf((KERNEL_OFFSET + PAGE * (n - 1)) % WORD_LIMIT) :=
        OrWord((image + PAGE * (n - 1)) % WORD_LIMIT, 3)]
  }

  lemma ImagePage(i: nat)
    requires i < PAGES
    ensures
      var page := PageOf((KERNEL_OFFSET + PAGE * i) % WORD_LIMIT);
      page < PAGES && ImageIndex(page) == i && forall q: nat :: q < PAGES && ImageIndex(q) == i ==> q == page
  {
    var a := KERNEL_OFFSET + PAGE * i;
    assert a % WORD_LIMIT == if i < 0x8_0000 then a else a - WORD_LIMIT;
    assert (a % WORD_LIMIT) / PAGE == if i < 0x8_0000 then 0xf_ffff_fff8_0000 + i else i - 0x8_0000;
  }

  /** The image's pages show the image, and all others are as before. */
  lemma {:induction false} ImageIsMapped(pages: Pages, image: nat, n: nat)
    requires n <= PAGES && image % PAGE == 0 && image + PAGE * n <= WORD_LIMIT
    requires forall q: nat :: q in pages ==> q < PAGES
    ensures
      var pages' := WithImage(pages, image, n);
      && (forall q: nat :: q in pages' <==> q in pages || (q < PAGES && ImageIndex(q) < n))
      && (forall q: nat :: q in pages' ==>
            pages'[q] == if ImageIndex(q) < n then image + PAGE * ImageIndex(q) + 3 else pages[q])
  {
    hide OrWord, PageOf, ImageIndex;
    if n == 0 {
    } else {
      ImageIsMapped(pages, image, n - 1);
      ImagePage(n - 1);
      ImageFrame(image, n - 1);
      AlignedLeaf(image + PAGE * (n - 1), 3);
    }
  }

  lemma ImageFrame(image: nat, i: nat)
    requires image % PAGE == 0 && image + PAGE * (i + 1) <= WORD_LIMIT
    ensures image + PAGE * i < WORD_LIMIT && (image + PAGE * i) % PAGE == 0
  {
  }

  /** The leaves there are when the loader enters the image. */
  ghost predicate StartPages(memmap: seq<MmapEntry>, image: nat, n: nat, pages: Pages) {
    && (forall q: nat :: q in pages <==> InDomain(memmap, q) || (q < PAGES && ImageIndex(q) < n))
    && (forall q: nat :: q in pages ==>
          if ImageIndex(q) < n then pages[q] == image + PAGE * ImageIndex(q) + 3
          else Direct(pages[q], q, Aligned(memmap)))
  }

  lemma DomainBound(memmap: seq<MmapEntry>, q: nat)
    requires InDomain(memmap, q) && forall e :: e in memmap ==> e.base + e.length <= CANONICAL_HALF
    ensures q < PAGES
  {
    if q >= 0x10_0000 {
      var e :| e in memmap && Among(e, Steps(e), q);
      assert PAGE * FrameOf(q) < e.base + e.length <= CANONICAL_HALF;
    }
  }

  lemma ImageOverMemmap(memmap: seq<MmapEntry>, image: nat, n: nat, pages: Pages)
    requires forall e :: e in memmap ==> e.base + e.length <= CANONICAL_HALF
    requires VmmPages(memmap, pages) && n <= PAGES && image % PAGE == 0 && image + PAGE * n <= WORD_LIMIT
    ensures StartPages(memmap, image, n, WithImage(pages, image, n))
  {
    hide InDomain, Direct, ImageIndex, Aligned, WithImage;
    forall q | q in pages
      ensures q < PAGES
    {
      DomainBound(memmap, q);
    }
    ImageIsMapped(pages, image, n);
  }

  /**
   What the processor sees when the image starts: the image at KERNEL_OFFSET, writable and for the
   supervisor only; everywhere else what vmm_init has left.
   */
  lemma StartTranslation(pm: Pm, root: nat, tables: Tables, pages: Pages, memmap: seq<MmapEntry>, image: nat, n: nat,
      va: Word)
    requires Tree(pm, root, tables, pages) && StartPages(memmap, image, n, pages) && image % PAGE == 0
    ensures
      var q := PageOf(va);
      match Linear(pm.mem, PAGE * root, va)
      case Mapped(leaf, writable, user) =>
        && writable && (ImageIndex(q) < n || InDomain(memmap, q))
        && leaf / PAGE == (if ImageIndex(q) < n then image / PAGE + ImageIndex(q) else FrameOf(q))
        && (ImageIndex(q) < n || Aligned(memmap) ==> !user && leaf % PAGE == 3)
      case NotPresent => ImageIndex(q) >= n && !InDomain(memmap, q)
      case _ => false
  {
    var q := PageOf(va);
    assert q < PAGES;
    hide Linear, PageOf, Tree, Direct, LeafResult, Aligned, InDomain, ImageIndex;
    LinearReadsTree(pm, root, tables, pages, va);
    if q in pages {
      if ImageIndex(q) < n {
        ImageLeaf(image, ImageIndex(q));
      } else {
        DirectRead(pages[q], q, Aligned(memmap));
      }
    }
  }

  /** In particular each byte of the image is reached through its address from KERNEL_OFFSET on. */
  lemma ImageReached(pm: Pm, root: nat, tables: Tables, pages: Pages, memmap: seq<MmapEntry>, image: nat, n: nat,
      k: nat)
    requires Tree(pm, root, tables, pages) && StartPages(memmap, image, n, pages) && image % PAGE == 0
    requires k < PAGE * n && k < 0x8000_0000
    ensures
      var r := Linear(pm.mem, PAGE * root, 0xffff_ffff_8000_0000 + k);
      r.Mapped? && r.writable && !r.user && r.leaf / PAGE == (image + k) / PAGE
  {
    hide Linear, PageOf, Tree, StartPages, InDomain, ImageIndex, FrameOf, Aligned;
    var va: Word := 0xffff_ffff_8000_0000 + k;
    ImageOffset(k);
    PageSum(image, n, k);
    StartTranslation(pm, root, tables, pages, memmap, image, n, va);
  }

  lemma ImageOffset(k: nat)
    requires k < 0x8000_0000
    ensures ImageIndex(PageOf(0xffff_ffff_8000_0000 + k)) == k / PAGE
  {
    assert (0xffff_ffff_8000_0000 + k) / PAGE == 0xf_ffff_fff8_0000 + k / PAGE;
  }

  lemma PageSum(image: nat, n: nat, k: nat)
    requires image % PAGE == 0 && k < PAGE * n
    ensures k / PAGE < n && (image + k) / PAGE == image / PAGE + k / PAGE
  {
    DivModUnique(image + k, PAGE, image / PAGE + k / PAGE, k % PAGE);
  }

  lemma ImageLeaf(image: nat, i: nat)
    requires image % PAGE == 0 && image + PAGE * i + 3 < WORD_LIMIT
    ensures
      var leaf: Word := image + PAGE * i + 3;
      LeafResult(leaf) == Mapped(leaf, true, false) && leaf / PAGE == image / PAGE + i && leaf % PAGE == 3
  {
    var f := image / PAGE + i;
    DivModUnique(image + PAGE * i + 3, PAGE, f, 3);
    DivModUnique(image + PAGE * i + 3, 2, 2048 * f + 1, 1);
    DivModUnique(2048 * f + 1, 2, 1024 * f, 1);
    DivModUnique(image + PAGE * i + 3, 4, 1024 * f, 3);
    DivModUnique(1024 * f, 2, 512 * f, 0);
  }

  lemma ImageFits(image: nat, size: nat)
    requires image <= CANONICAL_HALF + PAGE && size <= PAGE * PAGES
    ensures ImagePages(size) <= PAGES && size <= PAGE * ImagePages(size)
    ensures image + PAGE * ImagePages(size) <= WORD_LIMIT
  {
  }

  lemma ImageStart(base: nat, size: nat)
    requires base <= CANONICAL_HALF && size <= PAGE * PAGES
    ensures
      var image := PAGE * FrameUp(base);
      image % PAGE == 0 && image + size <= CANONICAL_HALF + PAGE * PAGES + PAGE
  {
  }

  /** The tables of a tree that only insertions have grown fill the pages from its root on. */
  lemma TablesBetween(t0: Tables, b0: nat, tables: Tables, base: nat, pagemap: nat)
    requires Extends(t0, b0, tables, base)
    requires pagemap % PAGE == 0 && t0 == map[ROOT := pagemap / PAGE] && b0 == pagemap + PAGE
    ensures base == pagemap + PAGE * |tables|
    ensures forall k :: k in tables ==> pagemap <= PAGE * tables[k]
  {
    assert |t0| == 1;
    forall k | k in tables
      ensures pagemap <= PAGE * tables[k]
    {
      if k in t0 {
        assert k == ROOT;
      }
    }
  }

  /** Behind such a tree there is room for both other allocations. */
  lemma RoomBehind(tables: Tables, pagemap: nat, more: nat)
    requires pagemap <= CANONICAL_HALF + PAGE * PAGES + 2 * PAGE && more <= PAGE * PAGES + 3 * PAGE
    ensures Room(tables, pagemap + PAGE * |tables| + more)
  {
    var n := |tables|;
    assert FrameUp(pagemap + PAGE * n + more) == FrameUp(pagemap + more) + n;
  }

  lemma AlignedNear(n: nat)
    ensures AlignUp(n, 16) < n + 16 && AlignUp(n, 1) == n
    ensures n % PAGE == 0 ==> AlignUp(n, 16) == n
  {
    PowersInUse();
    AlignUpIsLeastMultiple(n, 16, 4);
    AlignUpIsLeastMultiple(n, 1, 0);
  }

  class Loader {
    var mem: Memory
    var base: nat
    ghost var tables: Tables
    ghost var pages: Pages

    ghost predicate Valid(pagemap: nat)
      reads this
    {
      && pagemap % PAGE == 0
      && Tree(Pm(mem, base), pagemap / PAGE, tables, pages)
      && Room(tables, base)
    }

    method PmmInit(memmap: seq<MmapEntry>)
      modifies this`base
      ensures forall i: nat :: FirstLargest(memmap, i) ==> base == memmap[i].base
      ensures (forall i: nat :: !FirstLargest(memmap, i)) ==> base == old(base)
      ensures (forall i: nat :: !FirstLargest(memmap, i)) <==>
              (forall j :: 0 <= j < |memmap| && memmap[j].kind in {1, 0x1000, 0x1001} ==> memmap[j].length == 0)
    {
      var biggest := 0;
      ghost var best: nat := 0;
      var i := 0;
      while i < |memmap|
        invariant 0 <= i <= |memmap|
        invariant biggest == 0 ==> base == old(base)
        invariant biggest != 0 ==> best < i && FirstLargest(memmap[..i], best) && biggest == memmap[best].length
                                   && base == memmap[best].base
        invariant forall j :: 0 <= j < i && memmap[j].kind in FREE_KINDS ==> memmap[j].length <= biggest
      {
        if Usable(memmap[i]) {
          if memmap[i].length > biggest {
            biggest := memmap[i].length;
            base := memmap[i].base;
            best := i;
          }
        }
        i := i + 1;
      }
      assert memmap[..i] == memmap;
      if biggest != 0 {
        forall j: nat | FirstLargest(memmap, j) ensures j == best {
          FirstLargestUnique(memmap, best, j);
        }
      }
    }

    method PmmAllocAligned(size: nat, align: nat) returns (ret: nat)
      requires align > 0
      modifies this`base
      ensures ret == AlignUp(old(base), align) && base == ret + size
      ensures IsPow2(align) ==> IsLeastMultiple(ret, old(base), align)
    {
      AlignUpCorrectIffPow2(align);
      base := AlignUp(base, align);
      ret := base;
      base := base + size;
    }

    method PmmAlloczAligned(size: nat, align: nat) returns (ret: nat)
      requires align > 0
      modifies this`base, this`mem
      ensures ret == AlignUp(old(base), align) && base == ret + size
      ensures IsPow2(align) ==> IsLeastMultiple(ret, old(base), align)
      ensures mem == ZeroRange(old(mem), ret, size)
      ensures forall a: nat :: Read(mem, a) == if ret <= a < ret + size then 0 else Read(old(mem), a)
    {
      ret := PmmAllocAligned(size, align);
      mem := ZeroRange(mem, ret, size);
    }

    /** The page for the root table, as the loader's start-up code allocates it. */
    method AllocPagemap() returns (pagemap: nat)
      requires RoomForAll(Pm(mem, base))
      modifies this
      ensures Valid(pagemap) && tables == map[ROOT := pagemap / PAGE] && pages == map[]
      ensures pagemap == PAGE * FrameUp(old(base)) && base == pagemap + PAGE
    {
      hide AlignUp, Tree, Room, IsLeastMultiple;
      AlignUpToFrame(base);
      RootIsEmptyTree(Pm(mem, base));
      pagemap := PmmAlloczAligned(PAGE, PAGE);
      tables, pages := map[ROOT := pagemap / PAGE], map[];
    }

    /** Follows the entry at a level of the page's path, or creates and links the table it lacks. */
    method TableAt(pagemap: nat, table: nat, entry: nat, ghost page: nat, ghost level: nat) returns (next: nat)
      requires Valid(pagemap) && page < PAGES && 0 < level <= 3 && entry == Index(page, level)
      requires KeyOf(page, level) in tables && table == PAGE * tables[KeyOf(page, level)]
      modifies this`mem, this`base, this`tables
      ensures Valid(pagemap)
      ensures tables == WithTable(old(tables), old(base), KeyOf(page, level - 1))
      ensures base == BaseWith(old(tables), old(base), KeyOf(page, level - 1))
      ensures KeyOf(page, level - 1) in tables && next == PAGE * tables[KeyOf(page, level - 1)]
      ensures (Pm(mem, base), next / PAGE) == NextTable(old(Pm(mem, base)), table / PAGE, entry)
    {
      hide And, LinkWord, OrWord, Tree, Room, AlignUp, Index;
      LevelFacts(Pm(mem, base), pagemap / PAGE, tables, pages, page, level);
      ghost var k, base0 := KeyOf(page, level - 1), base;
      var slot := table + 8 * entry;
      if And(Read(mem, slot), 0x1) != 0 {
        next := And(Read(mem, slot), PAGE_MASK);
      } else {
        AlignUpToFrame(base);
        next := PmmAlloczAligned(PAGE, PAGE);
        mem := mem[slot := OrWord(next, 7)];
      }
      tables := WithTable(tables, base0, k);
    }

    method MapPage(pagemap: nat, phys: Word, virt: Word, flags: Word)
      requires Valid(pagemap)
      modifies this
      ensures Valid(pagemap)
      ensures pages == old(pages)[PageOf(virt) := OrWord(phys, flags)]
      ensures (tables, base) == Grown(old(tables), old(base), PageOf(virt), 3)
      ensures Pm(mem, base) == LoaderPaging.MapPage(old(Pm(mem, base)), pagemap, phys, virt, flags)
    {
      hide And, Shr, Shl, LinkWord, OrWord, Tree, Room, NextTable, WithTable, BaseWith, AlignUp, Index, Prefix, PageOf;
      ghost var page, root := PageOf(virt), pagemap / PAGE;
      ghost var pm0, tables0 := Pm(mem, base), tables;
      var pml4Entry := Shr(And(virt, Shl(0x1ff, 39)), 39);
      var pdptEntry := Shr(And(virt, Shl(0x1ff, 30)), 30);
      var pdEntry := Shr(And(virt, Shl(0x1ff, 21)), 21);
      var ptEntry := Shr(And(virt, Shl(0x1ff, 12)), 12);
      EntryIndices(virt);
      RootFacts(pm0, root, tables, pages, page);
      var pdpt := TableAt(pagemap, pagemap, pml4Entry, page, 3);
      ghost var pm1 := Pm(mem, base);
      var pd := TableAt(pagemap, pdpt, pdptEntry, page, 2);
      ghost var pm2 := Pm(mem, base);
      var pt := TableAt(pagemap, pd, pdEntry, page, 1);
      assert Descend(pm0, root, page, 3) == Descend(pm1, pdpt / PAGE, page, 2) == Descend(pm2, pd / PAGE, page, 1)
          == (Pm(mem, base), pt / PAGE);
      MapLeafRefinesUpdate(pm0, root, tables0, pages, page, OrWord(phys, flags));
      mem := mem[pt + 8 * ptEntry := OrWord(phys, flags)];
      pages := pages[page := OrWord(phys, flags)];
    }

    /** One call of map_page in a loop that started with tables t0 and base b0. */
    method MapAfter(pagemap: nat, phys: Word, virt: Word, ghost t0: Tables, ghost b0: nat)
      requires Valid(pagemap) && Extends(t0, b0, tables, base)
      modifies this
      ensures Valid(pagemap) && Extends(t0, b0, tables, base)
      ensures pages == old(pages)[PageOf(virt) := OrWord(phys, 3)]
    {
      hide Valid, OrWord, PageOf, Grown, Extends;
      GrownExtends(t0, b0, tables, base, PageOf(virt));
      MapPage(pagemap, phys, virt, 0x03);
    }

    /** The inner loop of vmm_init: both copies of every page of an entry. */
    method MapEntry(pagemap: nat, e: MmapEntry)
      requires Valid(pagemap) && e.length <= WORD_LIMIT - PAGE
      modifies this
      ensures Valid(pagemap) && pages == WithEntry(old(pages), e, Steps(e))
      ensures Extends(old(tables), old(base), tables, base)
    {
      hide Valid, OrWord, PageOf, Extends;
      ghost var t0, b0 := tables, base;
      ExtendsItself(tables, base);
      var p: nat := 0;
      while p < e.length
        invariant p % PAGE == 0 && p / PAGE <= Steps(e)
        invariant Valid(pagemap) && pages == WithEntry(old(pages), e, p / PAGE)
        invariant Extends(t0, b0, tables, base)
      {
        NextRound(p);
        var x := (p + e.base) % WORD_LIMIT;
        MapAfter(pagemap, x, x, t0, b0);
        MapAfter(pagemap, x, (x + MEM_PHYS_OFFSET) % WORD_LIMIT, t0, b0);
        p := p + PAGE;
      }
      assert p / PAGE == Steps(e);
    }

    /** The first loop of vmm_init. */
    method MapLow(pagemap: nat)
      requires Valid(pagemap)
      modifies this
      ensures Valid(pagemap) && pages == WithLow(old(pages), 0x10_0000)
      ensures Extends(old(tables), old(base), tables, base)
    {
      hide Valid, OrWord, PageOf, Extends;
      ghost var t0, b0 := tables, base;
      ExtendsItself(tables, base);
      var p: nat := 0;
      while p < 0x1_0000_0000
        invariant p % PAGE == 0 && p <= 0x1_0000_0000
        invariant Valid(pagemap) && pages == WithLow(old(pages), p / PAGE)
        invariant Extends(t0, b0, tables, base)
      {
        MapAfter(pagemap, p, p, t0, b0);
        p := p + PAGE;
      }
    }

    method VmmInit(pagemap: nat, memmap: seq<MmapEntry>)
      requires Valid(pagemap)
      requires forall e :: e in memmap ==> e.length <= WORD_LIMIT - PAGE
      modifies this
      ensures Valid(pagemap) && pages == WithMemmap(old(pages), memmap)
      ensures Extends(old(tables), old(base), tables, base)
    {
      hide Valid, Extends, WithEntry, WithLow;
      MapLow(pagemap);
      var i := 0;
      assert memmap[..i] == [];
      while i < |memmap|
        invariant 0 <= i <= |memmap|
        invariant Valid(pagemap) && pages == WithMemmap(old(pages), memmap[..i])
        invariant Extends(old(tables), old(base), tables, base)
      {
        ghost var tables1, base1 := tables, base;
        MapEntry(pagemap, memmap[i]);
        ExtendsFurther(old(tables), old(base), tables1, base1, tables, base);
        assert memmap[..i + 1][..i] == memmap[..i];
        i := i + 1;
      }
      assert memmap[..i] == memmap;
    }

    /** The image at KERNEL_OFFSET. */
    method MapImage(pagemap: nat, image: nat, size: nat)
      requires Valid(pagemap) && image % PAGE == 0
      modifies this
      ensures Valid(pagemap) && pages == WithImage(old(pages), image, ImagePages(size))
      ensures Extends(old(tables), old(base), tables, base)
    {
      hide Valid, OrWord, PageOf, Extends;
      ghost var t0, b0 := tables, base;
      ExtendsItself(tables, base);
      var p: nat := 0;
      while p < size
        invariant p % PAGE == 0 && p / PAGE <= ImagePages(size)
        invariant Valid(pagemap) && pages == WithImage(old(pages), image, p / PAGE)
        invariant Extends(t0, b0, tables, base)
      {
        NextRound(p);
        MapAfter(pagemap, (image + p) % WORD_LIMIT, (KERNEL_OFFSET + p) % WORD_LIMIT, t0, b0);
        p := p + PAGE;
      }
      assert p / PAGE == ImagePages(size);
    }

    /** Any other allocation leaves the tables alone and comes after them. */
    method AllocBlock(pagemap: nat, size: nat, align: nat) returns (block: nat)
      requires Valid(pagemap) && align > 0 && Room(tables, AlignUp(base, align) + size)
      modifies this`base, this`mem
      ensures Valid(pagemap) && old(base) <= block && base == block + size && block == AlignUp(old(base), align)
      ensures forall a: nat :: Read(mem, a) == if block <= a < block + size then 0 else Read(old(mem), a)
    {
      AlignUpNotBelow(base, align);
      AllocationKeepsTree(Pm(mem, base), pagemap / PAGE, tables, pages, size, align);
      hide AlignUp, Tree, Room;
      block := PmmAlloczAligned(size, align);
    }

    /** The image's memory and the page tables, with the image mapped. */
    method MapAll(memmap: seq<MmapEntry>, imageSize: nat) returns (image: nat, pagemap: nat)
      requires forall e :: e in memmap ==> e.base + e.length <= CANONICAL_HALF
      requires base <= CANONICAL_HALF && imageSize <= PAGE * PAGES
      modifies this
      ensures Valid(pagemap) && StartPages(memmap, image, ImagePages(imageSize), pages)
      ensures image == PAGE * FrameUp(old(base)) && pagemap == PAGE * FrameUp(image + imageSize)
      ensures base == pagemap + PAGE * |tables|
      ensures forall k :: k in tables ==> pagemap <= PAGE * tables[k] && PAGE * tables[k] + PAGE <= base
    {
      hide Valid, Extends, WithMemmap, WithImage, StartPages, InDomain, AlignUp, VmmPages, Direct;
      AlignUpToFrame(base);
      image := PmmAlloczAligned(imageSize, 0x1000);
      ImageFits(image, imageSize);
      pagemap := AllocPagemap();
      ghost var t0, b0 := tables, base;
      VmmInit(pagemap, memmap);
      ghost var t1, b1 := tables, base;
      MemmapPages(map[], memmap);
      ImageOverMemmap(memmap, image, ImagePages(imageSize), pages);
      MapImage(pagemap, image, imageSize);
      ExtendsFurther(t0, b0, t1, b1, tables, base);
      TablesBetween(t0, b0, tables, base, pagemap);
      TablesEnd(pagemap);
    }

    lemma TablesEnd(pagemap: nat)
      requires Valid(pagemap)
      ensures forall k :: k in tables ==> PAGE * tables[k] + PAGE <= base
    {
    }

    /** The stack and the guest's state, behind the tables. */
    method AllocRest(pagemap: nat, stateSize: nat) returns (stack: nat, state: nat)
      requires Valid(pagemap) && base == pagemap + PAGE * |tables| && base % PAGE == 0
      requires pagemap <= CANONICAL_HALF + PAGE * PAGES + 2 * PAGE && stateSize <= PAGE * PAGES
      modifies this`base, this`mem
      ensures Valid(pagemap) && stack == old(base) && state == stack + 0x2000 && base == state + stateSize
      ensures forall a: nat :: stack <= a < base ==> Read(mem, a) == 0
    {
      hide Valid, AlignUp, Room;
      AlignedNear(base);
      AlignUpNotBelow(base, 16);
      RoomBehind(tables, pagemap, AlignUp(base, 16) - base + 0x2000);
      stack := AllocBlock(pagemap, 8 * 1024, 16);
      AlignedNear(base);
      RoomBehind(tables, pagemap, base - (pagemap + PAGE * |tables|) + stateSize);
      state := AllocBlock(pagemap, stateSize, 1);
    }

    /**
     The loader from its memory map to what it hands over: the image, mapped, then the tables, the stack
     and the guest's state, one after the other, with base at the end.
     */
    method StartUp(memmap: seq<MmapEntry>, imageSize: nat, stateSize: nat)
        returns (image: nat, pagemap: nat, stack: nat, state: nat)
      requires forall e :: e in memmap ==> e.base + e.length <= CANONICAL_HALF
      requires base <= CANONICAL_HALF && imageSize <= PAGE * PAGES && stateSize <= PAGE * PAGES
      modifies this
      ensures Valid(pagemap) && StartPages(memmap, image, ImagePages(imageSize), pages)
      ensures image % PAGE == 0 && pagemap == PAGE * FrameUp(image + imageSize)
      ensures stack == pagemap + PAGE * |tables| && state == stack + 0x2000 && base == state + stateSize
      ensures forall a: nat :: stack <= a < base ==> Read(mem, a) == 0
      ensures forall k :: k in tables ==> pagemap <= PAGE * tables[k] && PAGE * tables[k] + PAGE <= stack
      ensures forall i: nat :: FirstLargest(memmap, i) ==> image == PAGE * FrameUp(memmap[i].base)
    {
      PmmInit(memmap);
      assert base <= CANONICAL_HALF by {
        if i: nat :| FirstLargest(memmap, i) {
          assert memmap[i] in memmap;
        }
      }
      hide Valid, FirstLargest, StartPages, InDomain;
      ImageStart(base, imageSize);
      image, pagemap := MapAll(memmap, imageSize);
      DivModUnique(base, PAGE, pagemap / PAGE + |tables|, 0);
      hide FrameUp;
      stack, state := AllocRest(pagemap, stateSize);
    }
  }
}
