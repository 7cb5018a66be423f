/**
 Four-level page tables in flat physical memory, and the one insertion both walkers of the
 repository perform: follow three links, creating a zeroed table wherever a link is missing,
 then store the leaf.

 Levels count down from 3 (the root) to 0 (the table that holds leaves). Both the EPT and the
 boot loader's paging write links as table address plus 7, so one tree shape serves both;
 they differ only in the leaf words they store.
 */
module RadixTree {
  import opened Bits

  const PAGE: nat := 4096
  const FANOUT: nat := 512
  /** Page numbers of a 48-bit address space. */
  const PAGES: nat := 0x10_0000_0000
  /** Entries hold frame numbers of 40 bits, so physical addresses below 2^52. */
  const FRAMES: nat := 0x100_0000_0000
  /** Tables in a complete tree: 1 + 2^9 + 2^18 + 2^27. */
  const MAX_TABLES: nat := 1 + 0x200 + 0x4_0000 + 0x800_0000

  /** Physical memory by byte address of an aligned 64-bit word; an absent word holds 0. */
  type Memory = map<nat, Word>

  function Read(mem: Memory, a: nat): Word {
    if a in mem then mem[a] else 0
  }

  /** Physical memory together with the bump allocator's next free byte. */
  datatype Pm = Pm(mem: Memory, base: nat)

  /** The address of entry i of the table in a frame. */
  function Slot(frame: nat, i: nat): nat { PAGE * frame + 8 * i }

  /** Zeroes size bytes from a, for word-sized pieces of memory. */
  function ZeroRange(mem: Memory, a: nat, size: nat): Memory {
    map x | x in mem && !(a <= x < a + size) :: mem[x]
  }

  function ZeroFrame(mem: Memory, frame: nat): Memory {
    ZeroRange(mem, PAGE * frame, PAGE)
  }

  /** The first whole frame at or above n. */
  function FrameUp(n: nat): nat { (n + (PAGE - 1)) / PAGE }

  /** That is the frame ALIGN_UP and ALIGN reach by masking when the alignment is a page. */
  lemma AlignUpToFrame(n: nat)
    ensures AlignUp(n, PAGE) == PAGE * FrameUp(n)
  {
    PowersInUse();
    AlignUpIsLeastMultiple(n, PAGE, 12);
  }

  /** A zeroed, page-aligned page from either allocator, by its frame. */
  function AllocFrame(pm: Pm): (Pm, nat) {
    var f := FrameUp(pm.base);
    (Pm(ZeroFrame(pm.mem, f), PAGE * f + PAGE), f)
  }

  /** Any zeroed allocation: memory and the allocator after it. */
  function Palloc(pm: Pm, size: nat, align: nat): Pm
    requires align > 0
  {
    var res := AlignUp(pm.base, align);
    Pm(ZeroRange(pm.mem, res, size), res + size)
  }

  /** The word that links to a table: present, writable and executable (or user). */
  function LinkWord(frame: nat): Word { (PAGE * frame + 7) % WORD_LIMIT }

  function LinkFrame(w: Word): nat { w / PAGE }

  lemma LinkRoundTrip(frame: nat)
    requires frame < FRAMES
    ensures LinkWord(frame) == PAGE * frame + 7 && LinkWord(frame) % 2 == 1 && LinkFrame(LinkWord(frame)) == frame
  {
  }

  /** The table number that covers a page at a level: the page number without its low digits. */
  function Prefix(page: nat, level: nat): nat {
    if level == 0 then page / FANOUT else Prefix(page, level - 1) / FANOUT
  }

  /** The index of a page in the table that covers it at a level. */
  function Index(page: nat, level: nat): (i: nat)
    ensures i < FANOUT
  {
    if level == 0 then page % FANOUT else Prefix(page, level - 1) % FANOUT
  }

  /** Shifting an address down to a level leaves the number whose low nine bits are the index. */
  lemma {:induction false} ShiftedAddress(address: nat, level: nat)
    ensures Shr(address, 12 + 9 * level) == if level == 0 then address / PAGE else Prefix(address / PAGE, level - 1)
    ensures And(Shr(address, 12 + 9 * level), 0x1ff) == Index(address / PAGE, level)
  {
    PowersInUse();
    ShrIsDivision(address, 12);
    if level == 0 {
    } else {
      ShiftedAddress(address, level - 1);
      ShrSum(address, 12 + 9 * (level - 1), 9);
      ShrIsDivision(Shr(address, 12 + 9 * (level - 1)), 9);
    }
    AndLowMask(Shr(address, 12 + 9 * level), 9);
  }

  /** One level of the walk: follow the link, or create a zeroed table and link it. */
  function NextTable(pm: Pm, cur: nat, i: nat): (Pm, nat) {
    var w := Read(pm.mem, Slot(cur, i));
    if w % 2 == 1 then (pm, LinkFrame(w))
    else
      var (pm', f) := AllocFrame(pm);
      (Pm(pm'.mem[Slot(cur, i) := LinkWord(f)], pm'.base), f)
  }

  function Descend(pm: Pm, cur: nat, page: nat, level: nat): (Pm, nat)
    decreases level
  {
    if level == 0 then (pm, cur)
    else
      var (pm', next) := NextTable(pm, cur, Index(page, level));
      Descend(pm', next, page, level - 1)
  }

  /** The whole insertion. */
  function MapLeaf(pm: Pm, root: nat, page: nat, leaf: Word): Pm {
    var (pm', pt) := Descend(pm, root, page, 3);
    Pm(pm'.mem[Slot(pt, Index(page, 0)) := leaf], pm'.base)
  }

  // ---------------------------------------------------------------------------------------
  // The tree in memory

  /** A table, by its level and by the part of the page number that selects it. */
  datatype Key = Key(level: nat, prefix: nat)

  const ROOT := Key(3, 0)

  function KeyOf(page: nat, level: nat): Key { Key(level, Prefix(page, level)) }

  function Child(k: Key, i: nat): Key
    requires k.level > 0
  {
    Key(k.level - 1, FANOUT * k.prefix + i)
  }

  function Parent(k: Key): Key { Key(k.level + 1, k.prefix / FANOUT) }

  /** How many tables a level can have. */
  function Span(level: nat): nat {
    if level == 0 then 0x800_0000 else if level == 1 then 0x4_0000 else if level == 2 then 0x200 else 1
  }

  ghost predicate KeysOk(keys: set<Key>) {
    && ROOT in keys
    && (forall k :: k in keys ==> k.level <= 3 && k.prefix < Span(k.level))
    && (forall k :: k in keys && k.level < 3 ==> Parent(k) in keys)
  }

  /** The frame of each table. */
  type Tables = map<Key, nat>
  type Pages = map<nat, Word>

  /** Tables fill whole frames below the allocator's next free byte and are not shared. */
  ghost predicate TablesOk(tables: Tables, base: nat) {
    && KeysOk(tables.Keys)
    && (forall k :: k in tables ==> PAGE * tables[k] + PAGE <= base <= PAGE * FRAMES)
    && (forall j, k :: j in tables && k in tables && j != k ==> tables[j] != tables[k])
  }

  /** What entry i of table k holds. */
  function Expected(tables: Tables, pages: Pages, k: Key, i: nat): Word {
    if k.level > 0 then
      if Child(k, i) in tables then LinkWord(tables[Child(k, i)]) else 0
    else
      if FANOUT * k.prefix + i in pages then pages[FANOUT * k.prefix + i] else 0
  }

  ghost predicate EntriesOk(mem: Memory, tables: Tables, pages: Pages) {
    forall k, i {:trigger Slot(tables[k], i)} :: k in tables && 0 <= i < FANOUT ==>
      Read(mem, Slot(tables[k], i)) == Expected(tables, pages, k, i)
  }

  ghost predicate PagesOk(tables: Tables, pages: Pages) {
    forall p :: p in pages ==> p < PAGES && KeyOf(p, 0) in tables
  }

  /**
   Memory holds, at root, exactly the tree whose tables are tables and whose leaves are pages.
   */
  ghost predicate Tree(pm: Pm, root: nat, tables: Tables, pages: Pages) {
    && TablesOk(tables, pm.base)
    && tables[ROOT] == root
    && EntriesOk(pm.mem, tables, pages)
    && PagesOk(tables, pages)
  }

  /** Whatever tables a complete tree still lacks fit between base and the physical limit. */
  ghost predicate Room(tables: Tables, base: nat) {
    FrameUp(base) + (MAX_TABLES - |tables|) <= FRAMES
  }

  /** Room for a complete tree behind the first whole frame. */
  predicate RoomForAll(pm: Pm) {
    FrameUp(pm.base) + MAX_TABLES <= FRAMES
  }

  /** A tree starts as one zeroed page. */
  lemma RootIsEmptyTree(pm: Pm)
    requires RoomForAll(pm)
    ensures
      var (pm', root) := AllocFrame(pm);
      Tree(pm', root, map[ROOT := root], map[]) && Room(map[ROOT := root], pm'.base)
  {
    var (pm', root) := AllocFrame(pm);
    var tables: Tables := map[ROOT := root];
    forall k, i {:trigger Slot(tables[k], i)} | k in tables && 0 <= i < FANOUT
      ensures Read(pm'.mem, Slot(tables[k], i)) == Expected(tables, map[], k, i)
    {
      assert PAGE * root <= Slot(root, i) < PAGE * root + PAGE;
    }
  }

  /** Every word of every table is as before. */
  ghost predicate SameTables(mem: Memory, mem': Memory, tables: Tables) {
    forall k, i {:trigger Slot(tables[k], i)} :: k in tables && 0 <= i < FANOUT ==>
      Read(mem', Slot(tables[k], i)) == Read(mem, Slot(tables[k], i))
  }

  /** A tree does not care what happens to the rest of memory, nor how far the allocator has moved. */
  lemma TreeUndisturbed(pm: Pm, pm': Pm, root: nat, tables: Tables, pages: Pages)
    requires Tree(pm, root, tables, pages) && SameTables(pm.mem, pm'.mem, tables)
    requires pm.base <= pm'.base && Room(tables, pm'.base)
    ensures Tree(pm', root, tables, pages)
  {
    TableCount(tables.Keys);
    assert |tables| == |tables.Keys|;
    forall k, i {:trigger Slot(tables[k], i)} | k in tables && 0 <= i < FANOUT
      ensures Read(pm'.mem, Slot(tables[k], i)) == Expected(tables, pages, k, i)
    {
      assert Read(pm.mem, Slot(tables[k], i)) == Expected(tables, pages, k, i);
    }
  }

  /** Other allocations leave the tree alone, as long as there is room. */
  lemma AllocationKeepsTree(pm: Pm, root: nat, tables: Tables, pages: Pages, size: nat, align: nat)
    requires Tree(pm, root, tables, pages) && align > 0 && Room(tables, Palloc(pm, size, align).base)
    ensures Tree(Palloc(pm, size, align), root, tables, pages)
  {
    AlignUpNotBelow(pm.base, align);
    hide AlignUp;
    var pm' := Palloc(pm, size, align);
    forall k, i {:trigger Slot(tables[k], i)} | k in tables && 0 <= i < FANOUT
      ensures Read(pm'.mem, Slot(tables[k], i)) == Read(pm.mem, Slot(tables[k], i))
    {
      assert Slot(tables[k], i) < pm.base;
    }
    TreeUndisturbed(pm, pm', root, tables, pages);
  }

  /** No table contains this address. */
  ghost predicate OutsideTables(tables: Tables, a: nat) {
    forall k :: k in tables ==> !(PAGE * tables[k] <= a < PAGE * tables[k] + PAGE)
  }

  /** Nor do stores outside the tables. */
  lemma StoreKeepsTree(pm: Pm, root: nat, tables: Tables, pages: Pages, a: nat, w: Word)
    requires Tree(pm, root, tables, pages) && Room(tables, pm.base) && OutsideTables(tables, a)
    ensures Tree(pm.(mem := pm.mem[a := w]), root, tables, pages)
  {
    var pm' := pm.(mem := pm.mem[a := w]);
    forall k, i {:trigger Slot(tables[k], i)} | k in tables && 0 <= i < FANOUT
      ensures Read(pm'.mem, Slot(tables[k], i)) == Read(pm.mem, Slot(tables[k], i))
    {
      assert Slot(tables[k], i) != a;
    }
    TreeUndisturbed(pm, pm', root, tables, pages);
  }

  lemma SlotsDiffer(f: nat, i: nat, g: nat, j: nat)
    requires i < FANOUT && j < FANOUT
    ensures Slot(f, i) == Slot(g, j) ==> f == g && i == j
  {
  }

  // ---------------------------------------------------------------------------------------
  // Counting tables

  /** The table numbers in use at a level. */
  function Prefixes(keys: set<Key>, level: nat): set<nat> {
    set k | k in keys && k.level == level :: k.prefix
  }

  lemma {:induction false} BoundedSetSize(s: set<nat>, n: nat)
    requires forall x :: x in s ==> x < n
    ensures |s| <= n
  {
    if n == 0 {
      assert s == {};
    } else {
      BoundedSetSize(s - {n - 1}, n - 1);
      assert s <= (s - {n - 1}) + {n - 1};
      if n - 1 !in s {
        assert s - {n - 1} == s;
      }
    }
  }

  lemma {:induction false} LevelSize(keys: set<Key>, level: nat)
    ensures |set k | k in keys && k.level == level| == |Prefixes(keys, level)|
    decreases |keys|
  {
    var here := set k | k in keys && k.level == level;
    if here == {} {
      assert forall k :: k in keys && k.level == level ==> k in here;
      assert Prefixes(keys, level) == {};
    } else {
      var k :| k in here;
      var rest := keys - {k};
      LevelSize(rest, level);
      assert here == (set j | j in rest && j.level == level) + {k};
      assert k.prefix !in Prefixes(rest, level) by {
        assert forall j :: j in rest && j.level == level ==> j.prefix != k.prefix;
      }
      assert Prefixes(keys, level) == Prefixes(rest, level) + {k.prefix} by {
        assert forall q :: q in Prefixes(keys, level) ==> q == k.prefix || q in Prefixes(rest, level);
      }
    }
  }

  lemma CountByLevel(keys: set<Key>)
    requires forall k :: k in keys ==> k.level <= 3
    ensures |keys| == |Prefixes(keys, 0)| + |Prefixes(keys, 1)| + |Prefixes(keys, 2)| + |Prefixes(keys, 3)|
  {
    var s0, s1 := set k | k in keys && k.level == 0, set k | k in keys && k.level == 1;
    var s2, s3 := set k | k in keys && k.level == 2, set k | k in keys && k.level == 3;
    assert keys == s0 + s1 + s2 + s3;
    LevelSize(keys, 0);
    LevelSize(keys, 1);
    LevelSize(keys, 2);
    LevelSize(keys, 3);
  }

  /** A tree never has more tables than the complete one. */
  lemma TableCount(keys: set<Key>)
    requires KeysOk(keys)
    ensures |keys| <= MAX_TABLES
  {
    CountByLevel(keys);
    BoundedSetSize(Prefixes(keys, 0), Span(0));
    BoundedSetSize(Prefixes(keys, 1), Span(1));
    BoundedSetSize(Prefixes(keys, 2), Span(2));
    BoundedSetSize(Prefixes(keys, 3), Span(3));
  }

  // ---------------------------------------------------------------------------------------
  // Insertion keeps the tree

  /** Which tables exist after the walk has made sure of table k. */
  function WithTable(tables: Tables, base: nat, k: Key): Tables {
    if k in tables then tables else tables[k := FrameUp(base)]
  }

  function BaseWith(tables: Tables, base: nat, k: Key): nat {
    if k in tables then base else PAGE * FrameUp(base) + PAGE
  }

  /** Memory differs only in frame f, now zero, and in entry i of frame g, now w. */
  ghost predicate Linked(mem: Memory, mem': Memory, f: nat, g: nat, i: nat, w: Word) {
    forall h, n {:trigger Slot(h, n)} :: 0 <= n < FANOUT && 0 <= h ==>
      Read(mem', Slot(h, n)) == if h == g && n == i then w else if h == f then 0 else Read(mem, Slot(h, n))
  }

  lemma ZeroAndLink(mem: Memory, f: nat, g: nat, i: nat, w: Word)
    requires i < FANOUT
    ensures Linked(mem, ZeroFrame(mem, f)[Slot(g, i) := w], f, g, i, w)
  {
    forall h, n {:trigger Slot(h, n)} | 0 <= n < FANOUT && 0 <= h
      ensures Slot(h, n) == Slot(g, i) <==> h == g && n == i
      ensures PAGE * f <= Slot(h, n) < PAGE * f + PAGE <==> h == f
    {
      SlotsDiffer(h, n, g, i);
    }
  }

  /** Linking a freshly zeroed frame below table up adds one empty table and disturbs no entry. */
  lemma LinkedFrameEntries(mem: Memory, mem': Memory, tables: Tables, pages: Pages, up: Key, i: nat, f: nat)
    requires KeysOk(tables.Keys) && EntriesOk(mem, tables, pages) && PagesOk(tables, pages)
    requires forall j, k :: j in tables && k in tables && j != k ==> tables[j] != tables[k]
    requires forall k :: k in tables ==> tables[k] < f
    requires up in tables && 0 < up.level <= 3 && i < FANOUT && Child(up, i) !in tables
    requires Linked(mem, mem', f, tables[up], i, LinkWord(f))
    ensures EntriesOk(mem', tables[Child(up, i) := f], pages)
  {
    hide LinkWord, Read;
    var k := Child(up, i);
    var tables' := tables[k := f];
    forall j, n {:trigger Slot(tables'[j], n)} | j in tables' && 0 <= n < FANOUT
      ensures Read(mem', Slot(tables'[j], n)) == Expected(tables', pages, j, n)
    {
      if j == k {
        FreshTableIsEmpty(tables, pages, k, n);
        SelfIsNotChild(k, n);
      } else {
        assert tables'[j] == tables[j] != f && (j != up ==> tables[j] != tables[up]);
        assert Read(mem, Slot(tables[j], n)) == Expected(tables, pages, j, n);
        hide EntriesOk, KeysOk, PagesOk, Slot;
        ExpectedAfterLink(tables, pages, up, i, f, j, n);
      }
    }
  }

  /** A new table changes what one entry should hold. */
  lemma ExpectedAfterLink(tables: Tables, pages: Pages, up: Key, i: nat, f: nat, j: Key, n: nat)
    requires 0 < up.level && i < FANOUT && n < FANOUT && Child(up, i) !in tables && j in tables && up in tables
    ensures
      Expected(tables[Child(up, i) := f], pages, j, n)
      == if j == up && n == i then LinkWord(f) else Expected(tables, pages, j, n)
  {
    OnlyChild(up, i, j, n);
    hide LinkWord;
  }

  lemma SelfIsNotChild(k: Key, n: nat)
    ensures 0 < k.level ==> Child(k, n) != k
  {
  }

  /** An entry position belongs to one table only. */
  lemma OnlyChild(up: Key, i: nat, j: Key, n: nat)
    requires 0 < up.level && i < FANOUT && n < FANOUT
    ensures 0 < j.level && Child(j, n) == Child(up, i) ==> j == up && n == i
  {
  }

  /** What a walk finds at a missing link leaves: a zeroed frame behind base, linked there. */
  function FreshTable(pm: Pm, up: nat, i: nat): Pm {
    var f := FrameUp(pm.base);
    Pm(ZeroFrame(pm.mem, f)[Slot(up, i) := LinkWord(f)], PAGE * f + PAGE)
  }

  lemma FreshTableKeepsTree(pm: Pm, root: nat, tables: Tables, pages: Pages, up: Key, i: nat)
    requires Tree(pm, root, tables, pages) && Room(tables, pm.base)
    requires up in tables && 0 < up.level && i < FANOUT && Child(up, i) !in tables
    requires Child(up, i).prefix < Span(up.level - 1)
    ensures
      var pm', tables' := FreshTable(pm, tables[up], i), tables[Child(up, i) := FrameUp(pm.base)];
      Tree(pm', root, tables', pages) && Room(tables', pm'.base)
  {
    var k, f := Child(up, i), FrameUp(pm.base);
    assert up.level <= 3 && Parent(k) == up && k != ROOT;
    AddedTable(tables, pm.base, k);
    ZeroAndLink(pm.mem, f, tables[up], i, LinkWord(f));
    hide Linked, FrameUp, LinkWord, Room, EntriesOk, Parent, Span;
    LinkedFrameEntries(pm.mem, FreshTable(pm, tables[up], i).mem, tables, pages, up, i, f);
    hide TablesOk;
    assert PagesOk(tables[k := f], pages);
  }

  /** The present bit of a link says whether there is the table. */
  lemma LinkPresentIff(pm: Pm, root: nat, tables: Tables, pages: Pages, page: nat, level: nat)
    requires Tree(pm, root, tables, pages) && page < PAGES && 0 < level <= 3 && KeyOf(page, level) in tables
    ensures
      var w := Read(pm.mem, Slot(tables[KeyOf(page, level)], Index(page, level)));
      w % 2 == 1 <==> KeyOf(page, level - 1) in tables
  {
    var up, k, i := KeyOf(page, level), KeyOf(page, level - 1), Index(page, level);
    assert Child(up, i) == k;
    assert Read(pm.mem, Slot(tables[up], i)) == Expected(tables, pages, up, i);
    if k in tables {
      LinkRoundTrip(tables[k]);
    }
  }

  lemma NextTableIs(pm: Pm, root: nat, tables: Tables, pages: Pages, page: nat, level: nat)
    requires Tree(pm, root, tables, pages) && page < PAGES && 0 < level <= 3 && KeyOf(page, level) in tables
    ensures
      var up, k, i := KeyOf(page, level), KeyOf(page, level - 1), Index(page, level);
      && k == Child(up, i)
      && NextTable(pm, tables[up], i)
         == if k in tables then (pm, tables[k]) else (FreshTable(pm, tables[up], i), FrameUp(pm.base))
  {
    var up, k, i := KeyOf(page, level), KeyOf(page, level - 1), Index(page, level);
    assert k == Child(up, i);
    LinkPresentIff(pm, root, tables, pages, page, level);
    assert Read(pm.mem, Slot(tables[up], i)) == Expected(tables, pages, up, i);
    hide Index, Slot, ZeroFrame, Prefix;
    if k in tables {
      assert tables[k] < FRAMES;
      LinkRoundTrip(tables[k]);
    }
  }

  /** One level: the walk finds the table or creates it, and nothing else in the tree moves. */
  lemma NextTableKeepsTree(pm: Pm, root: nat, tables: Tables, pages: Pages, page: nat, level: nat)
    requires Tree(pm, root, tables, pages) && Room(tables, pm.base)
    requires page < PAGES && 0 < level <= 3 && KeyOf(page, level) in tables
    ensures
      var k := KeyOf(page, level - 1);
      var (pm', next) := NextTable(pm, tables[KeyOf(page, level)], Index(page, level));
      var tables' := WithTable(tables, pm.base, k);
      && Tree(pm', root, tables', pages) && Room(tables', pm'.base)
      && pm'.base == BaseWith(tables, pm.base, k)
      && k in tables' && next == tables'[k]
  {
    hide Tree, Room, NextTable, FrameUp, Index, Prefix;
    NextTableIs(pm, root, tables, pages, page, level);
    var k := KeyOf(page, level - 1);
    if k !in tables {
      PrefixBound(page, level - 1);
      FreshTableKeepsTree(pm, root, tables, pages, KeyOf(page, level), Index(page, level));
    }
  }

  /** A new table fits, is not shared, and leaves room for the rest. */
  lemma AddedTable(tables: Tables, base: nat, k: Key)
    requires TablesOk(tables, base) && Room(tables, base)
    requires k !in tables && k.level < 3 && k.prefix < Span(k.level) && Parent(k) in tables
    ensures forall j :: j in tables ==> tables[j] < FrameUp(base)
    ensures
      var f := FrameUp(base);
      TablesOk(tables[k := f], PAGE * f + PAGE) && Room(tables[k := f], PAGE * f + PAGE)
  {
    var f := FrameUp(base);
    var tables' := tables[k := f];
    forall j | j in tables
      ensures tables[j] < f
    {
      FrameAbove(tables[j], base);
    }
    assert tables'.Keys == tables.Keys + {k};
    AddedKey(tables.Keys, k);
    TableCount(tables'.Keys);
    hide KeysOk;
    assert |tables'| == |tables'.Keys| == |tables.Keys| + 1;
    FrameAfter(f);
  }

  lemma FrameAbove(t: nat, base: nat)
    requires PAGE * t + PAGE <= base
    ensures t < FrameUp(base)
  {
  }

  lemma FrameAfter(f: nat)
    ensures FrameUp(PAGE * f + PAGE) == f + 1
  {
  }

  lemma AddedKey(keys: set<Key>, k: Key)
    requires KeysOk(keys) && k.level < 3 && k.prefix < Span(k.level) && Parent(k) in keys
    ensures KeysOk(keys + {k})
  {
  }

  lemma PrefixBound(page: nat, level: nat)
    requires page < PAGES && level <= 3
    ensures Prefix(page, level) < Span(level)
  {
  }

  /** Nothing hangs off a table that does not exist yet. */
  lemma FreshTableIsEmpty(tables: Tables, pages: Pages, k: Key, i: nat)
    requires KeysOk(tables.Keys) && PagesOk(tables, pages) && k !in tables && k.level < 3 && i < FANOUT
    ensures Expected(tables, pages, k, i) == 0
  {
    if k.level > 0 {
      assert Parent(Child(k, i)) == k;
    } else {
      assert KeyOf(FANOUT * k.prefix + i, 0) == k;
    }
  }

  /** The tables and the allocator after a descent from a level to level 0. */
  function Grown(tables: Tables, base: nat, page: nat, level: nat): (Tables, nat)
    decreases level
  {
    if level == 0 then (tables, base)
    else
      var k := KeyOf(page, level - 1);
      Grown(WithTable(tables, base, k), BaseWith(tables, base, k), page, level - 1)
  }

  lemma {:induction false} DescendKeepsTree(pm: Pm, root: nat, tables: Tables, pages: Pages, page: nat, level: nat)
    requires Tree(pm, root, tables, pages) && Room(tables, pm.base)
    requires page < PAGES && level <= 3 && KeyOf(page, level) in tables
    ensures
      var (pm', pt) := Descend(pm, tables[KeyOf(page, level)], page, level);
      var (tables', base') := Grown(tables, pm.base, page, level);
      && Tree(pm', root, tables', pages) && Room(tables', pm'.base) && pm'.base == base'
      && KeyOf(page, 0) in tables' && pt == tables'[KeyOf(page, 0)]
    decreases level
  {
    if level == 0 {
    } else {
      var k := KeyOf(page, level - 1);
      NextTableKeepsTree(pm, root, tables, pages, page, level);
      var (pm', next) := NextTable(pm, tables[KeyOf(page, level)], Index(page, level));
      DescendKeepsTree(pm', root, WithTable(tables, pm.base, k), pages, page, level - 1);
    }
  }

  lemma LeafEntries(mem: Memory, base: nat, tables: Tables, pages: Pages, page: nat, leaf: Word)
    requires TablesOk(tables, base) && EntriesOk(mem, tables, pages)
    requires page < PAGES && KeyOf(page, 0) in tables
    ensures EntriesOk(mem[Slot(tables[KeyOf(page, 0)], Index(page, 0)) := leaf], tables, pages[page := leaf])
  {
    var pt := KeyOf(page, 0);
    var mem' := mem[Slot(tables[pt], Index(page, 0)) := leaf];
    forall j, n {:trigger Slot(tables[j], n)} | j in tables && 0 <= n < FANOUT
      ensures Read(mem', Slot(tables[j], n)) == Expected(tables, pages[page := leaf], j, n)
    {
      SlotsDiffer(tables[j], n, tables[pt], Index(page, 0));
      assert Read(mem, Slot(tables[j], n)) == Expected(tables, pages, j, n);
    }
  }

  /**
   An insertion is a map update: whichever of the three levels had to be created, the memory
   afterwards holds the grown tree with that one page changed.
   */
  lemma MapLeafRefinesUpdate(pm: Pm, root: nat, tables: Tables, pages: Pages, page: nat, leaf: Word)
    requires Tree(pm, root, tables, pages) && Room(tables, pm.base) && page < PAGES
    ensures
      var pm' := MapLeaf(pm, root, page, leaf);
      var (tables', base') := Grown(tables, pm.base, page, 3);
      && Tree(pm', root, tables', pages[page := leaf]) && Room(tables', pm'.base) && pm'.base == base'
  {
    RootFacts(pm, root, tables, pages, page);
    hide Tree, Room, Descend, Grown;
    DescendKeepsTree(pm, root, tables, pages, page, 3);
    LeafStored(Descend(pm, root, page, 3).0, root, Grown(tables, pm.base, page, 3).0, pages, page, leaf);
  }

  lemma RootFacts(pm: Pm, root: nat, tables: Tables, pages: Pages, page: nat)
    requires Tree(pm, root, tables, pages) && page < PAGES
    ensures KeyOf(page, 3) in tables && tables[KeyOf(page, 3)] == root
  {
    PrefixBound(page, 3);
  }

  /** Storing a leaf into a table that is there. */
  lemma LeafStored(pm: Pm, root: nat, tables: Tables, pages: Pages, page: nat, leaf: Word)
    requires Tree(pm, root, tables, pages) && page < PAGES && KeyOf(page, 0) in tables
    ensures
      var slot := Slot(tables[KeyOf(page, 0)], Index(page, 0));
      Tree(Pm(pm.mem[slot := leaf], pm.base), root, tables, pages[page := leaf])
  {
    LeafEntries(pm.mem, pm.base, tables, pages, page, leaf);
    hide EntriesOk, TablesOk;
  }

  // ---------------------------------------------------------------------------------------
  // Which tables exist

  function Below(page: nat, level: nat): set<Key> {
    set l: nat | l < level :: KeyOf(page, l)
  }

  /** The tables a page needs below the root: its 9-, 18- and 27-bit prefixes. */
  function Path(page: nat): set<Key> {
    Below(page, 3)
  }

  /** An insertion keeps every table where it is and adds exactly the missing ones of its path. */
  lemma GrownTables(tables: Tables, base: nat, page: nat)
    ensures
      var (tables', base') := Grown(tables, base, page, 3);
      && tables'.Keys == tables.Keys + Path(page)
      && (forall k :: k in tables ==> tables'[k] == tables[k])
      && base <= base' && (Path(page) <= tables.Keys ==> base' == base)
      && (base % PAGE == 0 ==> base' == base + PAGE * (|tables'| - |tables|))
  {
    GrownFrom(tables, base, page, 3);
    if base % PAGE == 0 {
      GrownBytes(tables, base, page, 3);
    }
  }

  lemma {:induction false} GrownFrom(tables: Tables, base: nat, page: nat, level: nat)
    ensures
      var (tables', base') := Grown(tables, base, page, level);
      && tables'.Keys == tables.Keys + Below(page, level)
      && (forall k :: k in tables ==> tables'[k] == tables[k])
      && base <= base' && (Below(page, level) <= tables.Keys ==> base' == base)
    decreases level
  {
    if level == 0 {
    } else {
      var k := KeyOf(page, level - 1);
      GrownFrom(WithTable(tables, base, k), BaseWith(tables, base, k), page, level - 1);
      assert Below(page, level) == {k} + Below(page, level - 1);
    }
  }

  lemma BytesWith(tables: Tables, base: nat, k: Key)
    requires base % PAGE == 0
    ensures
      var base' := BaseWith(tables, base, k);
      base' == base + PAGE * (|WithTable(tables, base, k)| - |tables|) && base' % PAGE == 0
  {
    assert k in tables ==> WithTable(tables, base, k) == tables;
  }

  lemma {:induction false} GrownBytes(tables: Tables, base: nat, page: nat, level: nat)
    requires base % PAGE == 0
    ensures
      var (tables', base') := Grown(tables, base, page, level);
      base' == base + PAGE * (|tables'| - |tables|) && base' % PAGE == 0
    decreases level
  {
    hide WithTable, BaseWith, Prefix;
    if level == 0 {
    } else {
      var k := KeyOf(page, level - 1);
      BytesWith(tables, base, k);
      GrownBytes(WithTable(tables, base, k), BaseWith(tables, base, k), page, level - 1);
    }
  }

  // ---------------------------------------------------------------------------------------
  // The rest of memory

  /** Memory differs in tables only. */
  ghost predicate SameOutside(tables: Tables, mem: Memory, mem': Memory) {
    forall a: nat :: OutsideTables(tables, a) ==> Read(mem', a) == Read(mem, a)
  }

  lemma LinkOutside(mem: Memory, tables: Tables, up: Key, k: Key, i: nat, w: Word)
    requires up in tables && k in tables && i < FANOUT
    ensures SameOutside(tables, mem, ZeroFrame(mem, tables[k])[Slot(tables[up], i) := w])
  {
    var g := tables[up];
    assert PAGE * g <= Slot(g, i) < PAGE * g + PAGE;
  }

  lemma NextTableOutside(pm: Pm, root: nat, tables: Tables, pages: Pages, page: nat, level: nat)
    requires Tree(pm, root, tables, pages) && page < PAGES && 0 < level <= 3 && KeyOf(page, level) in tables
    ensures
      var pm' := NextTable(pm, tables[KeyOf(page, level)], Index(page, level)).0;
      SameOutside(WithTable(tables, pm.base, KeyOf(page, level - 1)), pm.mem, pm'.mem)
  {
    hide Tree, OutsideTables, SameOutside, ZeroFrame, LinkWord, Slot, FrameUp, Read, Index;
    var up, k, i := KeyOf(page, level), KeyOf(page, level - 1), Index(page, level);
    LinkPresentIff(pm, root, tables, pages, page, level);
    if k in tables {
      NothingOutside(tables, pm.mem);
    } else {
      LinkOutside(pm.mem, tables[k := FrameUp(pm.base)], up, k, i, LinkWord(FrameUp(pm.base)));
    }
  }

  lemma NothingOutside(tables: Tables, mem: Memory)
    ensures SameOutside(tables, mem, mem)
  {
  }

  /** A larger tree leaves less outside. */
  lemma OutsideGrown(tables: Tables, base: nat, page: nat, level: nat, a: nat)
    requires OutsideTables(Grown(tables, base, page, level).0, a)
    ensures OutsideTables(tables, a)
  {
    GrownFrom(tables, base, page, level);
    var tables' := Grown(tables, base, page, level).0;
    hide Grown;
    assert forall k :: k in tables ==> k in tables' && tables'[k] == tables[k];
  }

  lemma OutsideOneByOne(tables: Tables, base: nat, page: nat, level: nat, mem: Memory, mid: Memory, end: Memory)
    requires
      var tables' := Grown(tables, base, page, level).0;
      SameOutside(tables, mem, mid) && SameOutside(tables', mid, end)
    ensures SameOutside(Grown(tables, base, page, level).0, mem, end)
  {
    var tables' := Grown(tables, base, page, level).0;
    forall a: nat | OutsideTables(tables', a)
      ensures Read(end, a) == Read(mem, a)
    {
      OutsideGrown(tables, base, page, level, a);
    }
  }

  lemma {:induction false} DescendOutside(pm: Pm, root: nat, tables: Tables, pages: Pages, page: nat, level: nat)
    requires Tree(pm, root, tables, pages) && Room(tables, pm.base)
    requires page < PAGES && level <= 3 && KeyOf(page, level) in tables
    ensures
      var pm' := Descend(pm, tables[KeyOf(page, level)], page, level).0;
      SameOutside(Grown(tables, pm.base, page, level).0, pm.mem, pm'.mem)
    decreases level
  {
    hide Tree, Room, OutsideTables, SameOutside, NextTable;
    if level == 0 {
      NothingOutside(tables, pm.mem);
    } else {
      var k := KeyOf(page, level - 1);
      NextTableKeepsTree(pm, root, tables, pages, page, level);
      NextTableOutside(pm, root, tables, pages, page, level);
      var (pm', next) := NextTable(pm, tables[KeyOf(page, level)], Index(page, level));
      var tables' := WithTable(tables, pm.base, k);
      DescendOutside(pm', root, tables', pages, page, level - 1);
      OutsideOneByOne(tables', pm'.base, page, level - 1, pm.mem, pm'.mem, Descend(pm', next, page, level - 1).0.mem);
    }
  }

  /** An insertion writes into the tables there are after it and nowhere else. */
  lemma InsertionWritesTables(pm: Pm, root: nat, tables: Tables, pages: Pages, page: nat, leaf: Word)
    requires Tree(pm, root, tables, pages) && Room(tables, pm.base) && page < PAGES
    ensures SameOutside(Grown(tables, pm.base, page, 3).0, pm.mem, MapLeaf(pm, root, page, leaf).mem)
  {
    PrefixBound(page, 3);
    DescendKeepsTree(pm, root, tables, pages, page, 3);
    DescendOutside(pm, root, tables, pages, page, 3);
    hide Tree, Room, Grown, Descend;
    var i := Index(page, 0);
    var (pm', pt) := Descend(pm, root, page, 3);
    var tables' := Grown(tables, pm.base, page, 3).0;
    assert PAGE * pt <= Slot(pt, i) < PAGE * pt + PAGE && KeyOf(page, 0) in tables' && pt == tables'[KeyOf(page, 0)];
  }

  /** The root and the path of every page: the tables of a tree that only insertions have grown. */
  ghost predicate OnlyPaths(keys: set<Key>, pages: set<nat>) {
    forall k :: k in keys <==> k == ROOT || exists p :: p in pages && k in Path(p)
  }

  lemma OnlyPathsAfter(keys: set<Key>, pages: set<nat>, page: nat)
    requires OnlyPaths(keys, pages)
    ensures OnlyPaths(keys + Path(page), pages + {page})
  {
    forall k | k in keys + Path(page)
      ensures k == ROOT || exists p :: p in pages + {page} && k in Path(p)
    {
      if k in Path(page) {
        assert page in pages + {page};
      } else if k != ROOT {
        var p :| p in pages && k in Path(p);
        assert p in pages + {page};
      }
    }
  }

  function PrefixesOf(pages: set<nat>, level: nat): set<nat> {
    set p | p in pages :: Prefix(p, level)
  }

  /** Conservation: one root, and one table for each distinct 9-, 18- and 27-bit prefix. */
  lemma PathTableCount(keys: set<Key>, pages: set<nat>)
    requires OnlyPaths(keys, pages)
    ensures |keys| == 1 + |PrefixesOf(pages, 2)| + |PrefixesOf(pages, 1)| + |PrefixesOf(pages, 0)|
    ensures |keys| <= 1 + 3 * |pages|
  {
    assert forall k :: k in keys ==> k.level <= 3 && (k.level == 3 ==> k == ROOT);
    CountByLevel(keys);
    assert ROOT in keys;
    assert Prefixes(keys, 3) == {0};
    PrefixesOfPaths(keys, pages, 0);
    PrefixesOfPaths(keys, pages, 1);
    PrefixesOfPaths(keys, pages, 2);
    ImageSize(pages, 0);
    ImageSize(pages, 1);
    ImageSize(pages, 2);
  }

  lemma PrefixesOfPaths(keys: set<Key>, pages: set<nat>, level: nat)
    requires OnlyPaths(keys, pages) && level < 3
    ensures Prefixes(keys, level) == PrefixesOf(pages, level)
  {
    forall q | q in Prefixes(keys, level)
      ensures exists p :: p in pages && Prefix(p, level) == q
    {
      var k :| k in keys && k.level == level && k.prefix == q;
      var p :| p in pages && k in Path(p);
      assert Prefix(p, level) == q;
    }
    forall p | p in pages
      ensures Prefix(p, level) in Prefixes(keys, level)
    {
      assert KeyOf(p, level) in Path(p);
      assert KeyOf(p, level) in keys;
    }
  }

  lemma {:induction false} ImageSize(pages: set<nat>, level: nat)
    ensures |PrefixesOf(pages, level)| <= |pages|
    decreases |pages|
  {
    if pages == {} {
      assert PrefixesOf(pages, level) == {};
    } else {
      var p :| p in pages;
      var image, rest := PrefixesOf(pages, level), PrefixesOf(pages - {p}, level);
      ImageSize(pages - {p}, level);
      assert image - {Prefix(p, level)} <= rest;
      SubsetSize(image - {Prefix(p, level)}, rest);
      assert Prefix(p, level) in image;
    }
  }

  lemma SubsetSize(a: set<nat>, b: set<nat>)
    requires a <= b
    ensures |a| <= |b|
  {
    assert b == a + (b - a);
  }

  // ---------------------------------------------------------------------------------------
  // Reading the tree

  /** What a hardware walk that has reached a page's table at some level finds there. */
  lemma PathEntry(pm: Pm, root: nat, tables: Tables, pages: Pages, page: nat, level: nat)
    requires Tree(pm, root, tables, pages) && page < PAGES && level <= 3 && KeyOf(page, level) in tables
    ensures
      var w := Read(pm.mem, Slot(tables[KeyOf(page, level)], Index(page, level)));
      if level == 0 then
        w == if page in pages then pages[page] else 0
      else if KeyOf(page, level - 1) in tables then
        var t := tables[KeyOf(page, level - 1)];
        w == LinkWord(t) && t < FRAMES
      else
        w == 0
  {
    var k := KeyOf(page, level);
    assert Read(pm.mem, Slot(tables[k], Index(page, level))) == Expected(tables, pages, k, Index(page, level));
    if level > 0 {
      assert Child(k, Index(page, level)) == KeyOf(page, level - 1);
    }
  }

  /** A mapped page has every table of its path. */
  lemma MappedPathPresent(tables: Tables, pages: Pages, page: nat)
    requires KeysOk(tables.Keys) && PagesOk(tables, pages) && page in pages
    ensures Path(page) <= tables.Keys && KeyOf(page, 3) == ROOT
  {
    assert KeyOf(page, 0) in tables;
    assert Parent(KeyOf(page, 0)) == KeyOf(page, 1);
    assert Parent(KeyOf(page, 1)) == KeyOf(page, 2);
  }
}
