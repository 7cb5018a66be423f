/**
 The boot loader's page tables: the walk of 4-level paging, map_page as a map update, and how it
 relates to ept_map.
 */
module LoaderPaging {
  import opened Bits
  import opened RadixTree
  import Ept

  const PAGE_MASK: Word := 0xffff_ffff_ffff_f000
  /** Bit 47: half of the pages of the address space. */
  const HALF: nat := 0x8_0000_0000
  const CANONICAL_HALF: nat := 0x8000_0000_0000

  /** Bits 47 to 12 of a linear address. */
  function PageOf(va: nat): nat { va / PAGE % PAGES }

  /** What a linear access meets. */
  datatype PageResult = Mapped(leaf: Word, writable: bool, user: bool) | NotPresent | ReservedBit | LargePage

  /** Section 4.5 of Intel SDM Vol. 3A, from the table at an address. */
  function PageWalk(mem: Memory, table: nat, va: nat, level: nat): PageResult
    decreases level
  {
    var w := Read(mem, table + 8 * And(Shr(va, 12 + 9 * level), 0x1ff));
    if w % 2 == 0 then NotPresent
    else if level == 0 then Mapped(w, w / 2 % 2 == 1, w / 4 % 2 == 1)
    else if level == 3 && w / 0x80 % 2 == 1 then ReservedBit
    else if w / 0x80 % 2 == 1 then LargePage
    else
      match PageWalk(mem, PAGE * (w / PAGE % FRAMES), va, level - 1)
      case Mapped(leaf, wr, us) => Mapped(leaf, wr && w / 2 % 2 == 1, us && w / 4 % 2 == 1)
      case other => other
  }

  function Linear(mem: Memory, cr3: nat, va: Word): PageResult {
    PageWalk(mem, PAGE * (cr3 / PAGE % FRAMES), va, 3)
  }

  /** What a leaf word says: a translation when its present bit is set. */
  function LeafResult(leaf: Word): PageResult {
    if leaf % 2 == 0 then NotPresent else Mapped(leaf, leaf / 2 % 2 == 1, leaf / 4 % 2 == 1)
  }

  function Lookup(pages: Pages, page: nat): PageResult {
    if page in pages then LeafResult(pages[page]) else NotPresent
  }

  lemma {:induction false} IndexIgnoresHighBits(p: nat, level: nat)
    requires level <= 3
    ensures Index(p % PAGES, level) == Index(p, level)
  {
    var r, q := p % PAGES, p / PAGES;
    assert p == r + FANOUT * (0x800_0000 * q);
    AddMultiple(r, 0x800_0000 * q);
    assert Prefix(p, 0) == Prefix(r, 0) + FANOUT * (0x4_0000 * q);
    AddMultiple(Prefix(r, 0), 0x4_0000 * q);
    assert Prefix(p, 1) == Prefix(r, 1) + FANOUT * (0x200 * q);
    AddMultiple(Prefix(r, 1), 0x200 * q);
    assert Prefix(p, 2) == Prefix(r, 2) + FANOUT * q;
    AddMultiple(Prefix(r, 2), q);
  }

  lemma AddMultiple(x: nat, t: nat)
    ensures (x + FANOUT * t) / FANOUT == x / FANOUT + t && (x + FANOUT * t) % FANOUT == x % FANOUT
  {
  }

  /** The low twelve bits of a word whose upper bits are a frame number. */
  lemma LowBits(low: nat, frame: nat)
    requires low < PAGE
    ensures
      var w := PAGE * frame + low;
      w % 2 == low % 2 && w / 2 % 2 == low / 2 % 2 && w / 4 % 2 == low / 4 % 2 && w / 0x80 % 2 == low / 0x80 % 2
  {
    DivModUnique(PAGE * frame + low, 2, 2048 * frame + low / 2, low % 2);
    LowBit(low, frame, 2, 1024);
    LowBit(low, frame, 4, 512);
    LowBit(low, frame, 0x80, 16);
  }

  lemma LowBit(low: nat, frame: nat, d: nat, n: nat)
    requires (d == 2 && n == 1024) || (d == 4 && n == 512) || (d == 0x80 && n == 16)
    ensures (PAGE * frame + low) / d % 2 == low / d % 2
  {
    DivModUnique(PAGE * frame + low, d, low / d + 2 * (n * frame), low % d);
    DivModUnique(low / d + 2 * (n * frame), 2, low / d / 2 + n * frame, low / d % 2);
  }

  lemma LinkBits(frame: nat)
    requires frame < FRAMES
    ensures
      var w := LinkWord(frame);
      w % 2 == 1 && w / 2 % 2 == 1 && w / 4 % 2 == 1 && w / 0x80 % 2 == 0 && w / PAGE % FRAMES == frame
  {
    LinkRoundTrip(frame);
    hide LinkWord;
    LowBits(7, frame);
  }

  /** The walk stops at a missing link, and passes a clean one. */
  lemma WalkThroughLink(mem: Memory, table: nat, va: Word, level: nat, frame: nat)
    requires 0 < level <= 3 && frame < FRAMES
    ensures
      var w := Read(mem, Slot(table, Index(PageOf(va), level)));
      && (w == 0 ==> PageWalk(mem, PAGE * table, va, level) == NotPresent)
      && (w == LinkWord(frame) ==>
            PageWalk(mem, PAGE * table, va, level) == PageWalk(mem, PAGE * frame, va, level - 1))
  {
    hide And, Shr, LinkWord, Index;
    ShiftedAddress(va, level);
    IndexIgnoresHighBits(va / PAGE, level);
    LinkBits(frame);
  }

  lemma WalkAtLeaf(mem: Memory, table: nat, va: Word)
    ensures PageWalk(mem, PAGE * table, va, 0) == LeafResult(Read(mem, Slot(table, Index(PageOf(va), 0))))
  {
    ShiftedAddress(va, 0);
    IndexIgnoresHighBits(va / PAGE, 0);
  }

  lemma {:induction false} WalkReadsTree(pm: Pm, root: nat, tables: Tables, pages: Pages, va: Word, level: nat)
    requires Tree(pm, root, tables, pages) && level <= 3 && KeyOf(PageOf(va), level) in tables
    ensures PageWalk(pm.mem, PAGE * tables[KeyOf(PageOf(va), level)], va, level) == Lookup(pages, PageOf(va))
    decreases level
  {
    hide PageWalk, LinkWord, Index;
    var page := PageOf(va);
    var table := tables[KeyOf(page, level)];
    PathEntry(pm, root, tables, pages, page, level);
    if page in pages {
      MappedPathPresent(tables, pages, page);
    }
    if level == 0 {
      WalkAtLeaf(pm.mem, table, va);
    } else if KeyOf(page, level - 1) in tables {
      WalkThroughLink(pm.mem, table, va, level, tables[KeyOf(page, level - 1)]);
      WalkReadsTree(pm, root, tables, pages, va, level - 1);
    } else {
      WalkThroughLink(pm.mem, table, va, level, 0);
      assert KeyOf(page, level - 1) in Path(page);
    }
  }

  lemma LinearReadsTree(pm: Pm, root: nat, tables: Tables, pages: Pages, va: Word)
    requires Tree(pm, root, tables, pages)
    ensures Linear(pm.mem, PAGE * root, va) == Lookup(pages, PageOf(va))
  {
    TreeRoot(pm, root, tables, pages, PageOf(va));
    hide PageWalk, Tree, Lookup, PageOf;
    WalkReadsTree(pm, root, tables, pages, va, 3);
  }

  /** cr3 leads to the root, whatever the page. */
  lemma TreeRoot(pm: Pm, root: nat, tables: Tables, pages: Pages, page: nat)
    requires Tree(pm, root, tables, pages) && page < PAGES
    ensures KeyOf(page, 3) in tables && tables[KeyOf(page, 3)] == root
    ensures PAGE * (PAGE * root / PAGE % FRAMES) == PAGE * root
  {
    PrefixBound(page, 3);
    assert root < FRAMES;
    hide Tree;
    DivModUnique(PAGE * root, PAGE, root, 0);
    DivModUnique(root, FRAMES, 0, root);
  }

  /** map_page on words. */
  function MapPage(pm: Pm, pagemap: nat, phys: Word, virt: Word, flags: Word): Pm {
    MapLeaf(pm, pagemap / PAGE, PageOf(virt), OrWord(phys, flags))
  }

  /**
   map_page changes one translation: afterwards the page translates as its new leaf says and every
   page that differs anywhere in bits 47 to 12 translates as before, whichever tables were missing;
   and it leaves a tree.
   */
  lemma MapPageChangesOneTranslation(pm: Pm, root: nat, tables: Tables, pages: Pages, phys: Word, virt: Word,
      flags: Word, va: Word)
    requires Tree(pm, root, tables, pages) && Room(tables, pm.base)
    ensures
      var pm' := MapPage(pm, PAGE * root, phys, virt, flags);
      Linear(pm'.mem, PAGE * root, va) ==
        if PageOf(va) == PageOf(virt) then LeafResult(OrWord(phys, flags)) else Linear(pm.mem, PAGE * root, va)
    ensures
      var pm', tables' := MapPage(pm, PAGE * root, phys, virt, flags), Grown(tables, pm.base, PageOf(virt), 3).0;
      Tree(pm', root, tables', pages[PageOf(virt) := OrWord(phys, flags)]) && Room(tables', pm'.base)
  {
    hide Linear, MapLeaf, OrWord, Grown;
    var page, leaf := PageOf(virt), OrWord(phys, flags);
    MapLeafRefinesUpdate(pm, root, tables, pages, page, leaf);
    LinearReadsTree(pm, root, tables, pages, va);
    LinearReadsTree(MapLeaf(pm, root, page, leaf), root, Grown(tables, pm.base, page, 3).0, pages[page := leaf], va);
  }

  /** For a page-aligned frame address and flags below a page, the leaf is their sum. */
  lemma AlignedLeaf(phys: Word, flags: Word)
    requires phys % PAGE == 0 && flags < PAGE
    ensures OrWord(phys, flags) == phys + flags
  {
    PowersInUse();
    OrDisjoint(phys, flags, 12);
  }

  // ---------------------------------------------------------------------------------------
  // The two walkers

  /** Both trees have the same tables and map the same pages to the same frames. */
  ghost predicate SameShape(tables: Tables, pages: Pages, tables': Tables, pages': Pages) {
    && tables.Keys == tables'.Keys && pages.Keys == pages'.Keys
    && forall p :: p in pages ==> pages[p] / PAGE % FRAMES == pages'[p] / PAGE % FRAMES
  }

  /**
   From trees of the same shape, wherever their tables lie, ept_map(a) and map_page(t, a, a, flags)
   leave trees of the same shape, so they create tables at the same levels.
   */
  lemma WalkersAgree(ept: Pm, eptRoot: nat, eptTables: Tables, eptPages: Pages,
                     ldr: Pm, ldrRoot: nat, ldrTables: Tables, ldrPages: Pages, a: Ept.Gpa, flags: Word)
    requires Tree(ept, eptRoot, eptTables, eptPages) && Room(eptTables, ept.base)
    requires Tree(ldr, ldrRoot, ldrTables, ldrPages) && Room(ldrTables, ldr.base)
    requires SameShape(eptTables, eptPages, ldrTables, ldrPages)
    requires a % PAGE == 0 && flags < PAGE
    ensures
      var page, eptLeaf, ldrLeaf := a / PAGE, Ept.EptLeaf(a / PAGE), OrWord(a, flags);
      var ept', ldr' := MapLeaf(ept, eptRoot, page, eptLeaf), MapPage(ldr, PAGE * ldrRoot, a, a, flags);
      var (eptTables', eb), (ldrTables', lb) := Grown(eptTables, ept.base, page, 3), Grown(ldrTables, ldr.base, page,
          3);
      && Tree(ept', eptRoot, eptTables', eptPages[page := eptLeaf])
      && Tree(ldr', ldrRoot, ldrTables', ldrPages[page := ldrLeaf])
      && SameShape(eptTables', eptPages[page := eptLeaf], ldrTables', ldrPages[page := ldrLeaf])
  {
    hide MapLeaf, Grown, Tree, Room, Path, OrWord, Ept.EptLeaf, KeyOf, SameShape, MapPage;
    var page := a / PAGE;
    MapPageIsMapLeaf(ldr, ldrRoot, a, flags);
    MapLeafRefinesUpdate(ept, eptRoot, eptTables, eptPages, page, Ept.EptLeaf(page));
    MapLeafRefinesUpdate(ldr, ldrRoot, ldrTables, ldrPages, page, OrWord(a, flags));
    GrownKeys(eptTables, ept.base, page);
    GrownKeys(ldrTables, ldr.base, page);
    LeafFrames(a, flags);
    SameShapeAfter(eptTables, eptPages, ldrTables, ldrPages, Grown(eptTables, ept.base, page, 3).0,
                   Grown(ldrTables, ldr.base, page, 3).0, page, Ept.EptLeaf(page), OrWord(a, flags));
  }

  lemma MapPageIsMapLeaf(pm: Pm, root: nat, a: Ept.Gpa, flags: Word)
    ensures MapPage(pm, PAGE * root, a, a, flags) == MapLeaf(pm, root, a / PAGE, OrWord(a, flags))
  {
    hide MapLeaf, OrWord;
  }

  lemma SameShapeAfter(tables: Tables, pages: Pages, tables': Tables, pages': Pages,
                       grown: Tables, grown': Tables, page: nat, leaf: Word, leaf': Word)
    requires SameShape(tables, pages, tables', pages')
    requires grown.Keys == tables.Keys + Path(page) && grown'.Keys == tables'.Keys + Path(page)
    requires leaf / PAGE % FRAMES == leaf' / PAGE % FRAMES
    ensures SameShape(grown, pages[page := leaf], grown', pages'[page := leaf'])
  {
  }

  lemma GrownKeys(tables: Tables, base: nat, page: nat)
    ensures Grown(tables, base, page, 3).0.Keys == tables.Keys + Path(page)
  {
    GrownTables(tables, base, page);
  }

  lemma LeafFrames(a: Ept.Gpa, flags: Word)
    requires a % PAGE == 0 && flags < PAGE
    ensures Ept.EptLeaf(a / PAGE) / PAGE % FRAMES == OrWord(a, flags) / PAGE % FRAMES
  {
    hide Ept.EptLeaf, OrWord;
    AlignedLeaf(a, flags);
    EptLeafFrame(a / PAGE);
    DivModUnique(a + flags, PAGE, a / PAGE, flags);
    DivModUnique(a / PAGE, FRAMES, 0, a / PAGE);
  }

  lemma EptLeafFrame(page: nat)
    requires page < PAGES
    ensures Ept.EptLeaf(page) / PAGE % FRAMES == page
  {
    hide Ept.EptLeaf;
    Ept.LeafValue(page);
    Quotient(page);
  }

  lemma Quotient(page: nat)
    requires page < PAGES
    ensures (PAGE * page + 55) / PAGE % FRAMES == page
  {
    DivModUnique(PAGE * page + 55, PAGE, page, 55);
    DivModUnique(page, FRAMES, 0, page);
  }
}
