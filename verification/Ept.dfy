/**
 The extended page table of the guest: entries as C bitfields, the walk the processor does,
 and the identity map that ept_map grows one page at a time.
 */
module Ept {
  import opened Bits
  import opened RadixTree

  type Bit = b: nat | b < 2
  type Bits3 = b: nat | b < 8
  type Bits4 = b: nat | b < 16
  type Bits8 = b: nat | b < 256
  type Bits12 = b: nat | b < 4096
  type Bits40 = b: nat | b < FRAMES

  /** Guest-physical addresses of a four-level walk. */
  type Gpa = a: nat | a < PAGE * PAGES

  const EPT_WB: Bits3 := 6
  const EPT_LEVELS := 4

  /** Bits 8 to 11. */
  datatype Low = Low(accessed: Bit, dirty: Bit, linearX: Bit, reserved1: Bit)

  /** Bits 52 to 63. */
  datatype Top = Top(reserved2: Bits8, supervisorShadow: Bit, spp: Bit, reserved3: Bit, suppressVe: Bit)

  /**
   struct ept_entry from bit 0 up. Bit 7, which the struct calls reserved, is what the processor
   reads as the page size. The code names no field of low or top.
   */
  datatype EptEntry = EptEntry(
    r: Bit, w: Bit, x: Bit, memType: Bits3, ignorePat: Bit, pageSize: Bit, low: Low, frame: Bits40, top: Top)

  function LowBits(l: Low): Bits4 {
    l.accessed + 2 * (l.dirty + 2 * (l.linearX + 2 * l.reserved1))
  }

  function LowOf(b: Bits4): Low { Low(b % 2, b / 2 % 2, b / 4 % 2, b / 8) }

  function TopBits(t: Top): Bits12 {
    t.reserved2 + 256 * (t.supervisorShadow + 2 * (t.spp + 2 * (t.reserved3 + 2 * t.suppressVe)))
  }

  function TopOf(b: Bits12): Top { Top(b % 256, b / 256 % 2, b / 512 % 2, b / 1024 % 2, b / 2048) }

  lemma LowRoundTrip(l: Low)
    ensures LowOf(LowBits(l)) == l
  {
    var c: nat := l.linearX + 2 * l.reserved1;
    var b: nat := l.dirty + 2 * c;
    var a: nat := LowBits(l);
    SplitField(l.accessed, 2, b);
    SplitField(l.dirty, 2, c);
    SplitField(l.linearX, 2, l.reserved1);
    assert a / 4 == c && a / 8 == l.reserved1;
  }

  lemma LowBitsRoundTrip(b: Bits4)
    ensures LowBits(LowOf(b)) == b
  {
    assert b / 4 == b / 2 / 2 && b / 8 == b / 4 / 2;
    assert b == b % 2 + 2 * (b / 2) && b / 2 == b / 2 % 2 + 2 * (b / 4) && b / 4 == b / 4 % 2 + 2 * (b / 8);
  }

  lemma TopRoundTrip(t: Top)
    ensures TopOf(TopBits(t)) == t
  {
    var d: nat := t.reserved3 + 2 * t.suppressVe;
    var c: nat := t.spp + 2 * d;
    var b: nat := t.supervisorShadow + 2 * c;
    var a: nat := TopBits(t);
    assert a == t.reserved2 + 256 * b;
    SplitField(t.reserved2, 256, b);
    assert b / 2 == c && c / 2 == d;
    assert a / 512 == c && a / 1024 == d && a / 2048 == t.suppressVe;
  }

  lemma TopBitsRoundTrip(b: Bits12)
    ensures TopBits(TopOf(b)) == b
  {
    assert b / 512 == b / 256 / 2 && b / 1024 == b / 512 / 2 && b / 2048 == b / 1024 / 2;
  }

  function Encode(e: EptEntry): nat {
    e.r + 2 * (e.w + 2 * (e.x + 2 * (e.memType + 8 * (e.ignorePat + 2 * (e.pageSize + 2 * (LowBits(e.low)
    + 16 * (e.frame + FRAMES * TopBits(e.top))))))))
  }

  function Decode(word: Word): EptEntry {
    var b1 := word / 2;
    var b2 := b1 / 2;
    var b3 := b2 / 2;
    var b6 := b3 / 8;
    var b7 := b6 / 2;
    var b8 := b7 / 2;
    var b12 := b8 / 16;
    EptEntry(word % 2, b1 % 2, b2 % 2, b3 % 8, b6 % 2, b7 % 2, LowOf(b8 % 16), b12 % FRAMES, TopOf(b12 / FRAMES))
  }

  lemma SplitField(low: nat, d: nat, rest: nat)
    requires low < d
    ensures (low + d * rest) / d == rest && (low + d * rest) % d == low
  {
    DivModUnique(low + d * rest, d, rest, low);
  }

  lemma EncodeFits(e: EptEntry)
    ensures Encode(e) < WORD_LIMIT
  {
  }

  /** A word and its parts, each without the fields below it. */
  lemma EncodeParts(e: EptEntry, b1: nat, b2: nat, b3: nat, b6: nat, b7: nat, b8: nat, b12: nat)
    requires b12 == e.frame + FRAMES * TopBits(e.top) && b8 == LowBits(e.low) + 16 * b12
    requires b7 == e.pageSize + 2 * b8 && b6 == e.ignorePat + 2 * b7 && b3 == e.memType + 8 * b6
    requires b2 == e.x + 2 * b3 && b1 == e.w + 2 * b2
    ensures Encode(e) == e.r + 2 * b1
  {
    hide LowBits, TopBits;
  }

  /** The bitfields tile the 64 bits of a word: none overlaps another and none loses a bit. */
  lemma EntryRoundTrip(e: EptEntry)
    ensures Encode(e) < WORD_LIMIT && Decode(Encode(e)) == e
  {
    hide Encode, Decode, LowBits, LowOf, TopBits, TopOf;
    EncodeFits(e);
    var b12: nat := e.frame + FRAMES * TopBits(e.top);
    var b8: nat := LowBits(e.low) + 16 * b12;
    var b7: nat := e.pageSize + 2 * b8;
    var b6: nat := e.ignorePat + 2 * b7;
    var b3: nat := e.memType + 8 * b6;
    var b2: nat := e.x + 2 * b3;
    var b1: nat := e.w + 2 * b2;
    EncodeParts(e, b1, b2, b3, b6, b7, b8, b12);
    SplitField(e.r, 2, b1);
    SplitField(e.w, 2, b2);
    SplitField(e.x, 2, b3);
    SplitField(e.memType, 8, b6);
    SplitField(e.ignorePat, 2, b7);
    SplitField(e.pageSize, 2, b8);
    SplitField(LowBits(e.low), 16, b12);
    SplitField(e.frame, FRAMES, TopBits(e.top));
    DecodeByParts(Encode(e), b1, b2, b3, b6, b7, b8, b12, e);
  }

  lemma DecodeByParts(word: Word, b1: nat, b2: nat, b3: nat, b6: nat, b7: nat, b8: nat, b12: nat, e: EptEntry)
    requires word % 2 == e.r && word / 2 == b1
    requires b1 % 2 == e.w && b1 / 2 == b2
    requires b2 % 2 == e.x && b2 / 2 == b3
    requires b3 % 8 == e.memType && b3 / 8 == b6
    requires b6 % 2 == e.ignorePat && b6 / 2 == b7
    requires b7 % 2 == e.pageSize && b7 / 2 == b8
    requires b8 % 16 == LowBits(e.low) && b8 / 16 == b12
    requires b12 % FRAMES == e.frame && b12 / FRAMES == TopBits(e.top)
    ensures Decode(word) == e
  {
    LowRoundTrip(e.low);
    TopRoundTrip(e.top);
    hide LowBits, LowOf, TopBits, TopOf;
  }

  lemma WordRoundTrip(word: Word)
    ensures Encode(Decode(word)) == word
  {
    hide LowBits, LowOf, TopBits, TopOf;
    var b8 := word / 2 / 2 / 2 / 8 / 2 / 2;
    LowBitsRoundTrip(b8 % 16);
    TopBitsRoundTrip(b8 / 16 / FRAMES);
  }

  lemma DivTwice(w: nat, a: nat, b: nat)
    requires a > 0 && b > 0
    ensures a * b > 0 && w / a / b == w / (a * b)
  {
    var p, r := w / a, w % a;
    QuotientForm(w, a);
    QuotientForm(p, b);
    RestBelow(a, b, p / b, p % b, r);
    DivModUnique(w, a * b, p / b, r + a * (p % b));
  }

  lemma RestBelow(a: nat, b: nat, q: nat, s: nat, r: nat)
    requires s < b && r < a
    ensures a * (b * q + s) + r == (a * b) * q + (r + a * s)
    ensures r + a * s < a * b
  {
    assert a * (b * q) == (a * b) * q;
    assert a * s <= a * (b - 1);
  }

  /** Where each field of an entry lies in its word, by the value of its lowest bit. */
  lemma EntryBits(word: Word)
    ensures
      var e := Decode(word);
      && e.r == word % 2 && e.w == word / 2 % 2 && e.x == word / 4 % 2 && e.memType == word / 8 % 8
      && e.ignorePat == word / 0x40 % 2 && e.pageSize == word / 0x80 % 2 && e.low.accessed == word / 0x100 % 2
      && e.low.dirty == word / 0x200 % 2 && e.low.linearX == word / 0x400 % 2 && e.low.reserved1 == word / 0x800 % 2
      && e.frame == word / 0x1000 % 0x100_0000_0000
      && e.top.reserved2 == word / 0x10_0000_0000_0000 % 0x100
      && e.top.supervisorShadow == word / 0x1000_0000_0000_0000 % 2 && e.top.spp == word / 0x2000_0000_0000_0000 % 2
      && e.top.reserved3 == word / 0x4000_0000_0000_0000 % 2 && e.top.suppressVe == word / 0x8000_0000_0000_0000
  {
    DivTwice(word, 2, 2);
    DivTwice(word, 4, 2);
    DivTwice(word, 8, 8);
    DivTwice(word, 0x40, 2);
    DivTwice(word, 0x80, 2);
    LowFields(word / 0x100);
    DivTwice(word, 0x100, 2);
    DivTwice(word, 0x100, 4);
    DivTwice(word, 0x100, 8);
    DivTwice(word, 0x100, 16);
    var t := word / 0x1000 / FRAMES;
    DivTwice(word, 0x1000, FRAMES);
    DivTwice(word, 0x10_0000_0000_0000, 256);
    DivTwice(word, 0x10_0000_0000_0000, 512);
    DivTwice(word, 0x10_0000_0000_0000, 1024);
    DivTwice(word, 0x10_0000_0000_0000, 2048);
  }

  /** A field of four bits, taken from a longer number. */
  lemma LowFields(n: nat)
    ensures n % 16 % 2 == n % 2 && n % 16 / 2 % 2 == n / 2 % 2 && n % 16 / 4 % 2 == n / 4 % 2
    ensures n % 16 / 8 == n / 8 % 2
  {
    var k, m := n / 16, n % 16;
    DivModUnique(n, 2, 8 * k + m / 2, m % 2);
    DivModUnique(8 * k + m / 2, 2, 4 * k + m / 2 / 2, m / 2 % 2);
    DivModUnique(n, 4, 4 * k + m / 4, m % 4);
    DivModUnique(4 * k + m / 4, 2, 2 * k + m / 4 / 2, m / 4 % 2);
    DivModUnique(n, 8, 2 * k + m / 8, m % 8);
    DivModUnique(2 * k + m / 8, 2, k, m / 8);
  }

  const NO_LOW := Low(0, 0, 0, 0)
  const NO_TOP := Top(0, 0, 0, 0, 0)
  const ZERO_ENTRY := EptEntry(0, 0, 0, 0, 0, 0, NO_LOW, 0, NO_TOP)

  /** A readable, writable, executable entry and nothing else. */
  function Rwx(frame: Bits40, memType: Bits3): EptEntry {
    EptEntry(1, 1, 1, memType, 0, 0, NO_LOW, frame, NO_TOP)
  }

  /** The leaf ept_map stores; the frame field keeps 40 bits. */
  function EptLeaf(page: nat): Word {
    EncodeFits(Rwx(page % FRAMES, EPT_WB));
    Encode(Rwx(page % FRAMES, EPT_WB))
  }

  lemma LinkIsRwx(frame: nat)
    requires frame < FRAMES
    ensures Decode(LinkWord(frame)) == Rwx(frame, 0) && LinkWord(frame) == Encode(Rwx(frame, 0))
  {
    LinkRoundTrip(frame);
    assert Encode(Rwx(frame, 0)) == LinkWord(frame);
    EntryRoundTrip(Rwx(frame, 0));
  }

  // ---------------------------------------------------------------------------------------
  // The processor's view

  /** What one guest-physical access meets. */
  datatype EptResult =
    | Translated(address: nat, memType: Bits3, writable: bool, executable: bool)
    | Violation
    | Misconfigured
    | LargePage

  /** Sections 28.2.2 and 28.2.3.1 of Intel SDM Vol. 3C, from the table at an address. */
  function EptWalk(mem: Memory, table: nat, gpa: nat, level: nat): EptResult
    decreases level
  {
    var e := Decode(Read(mem, table + 8 * And(Shr(gpa, 12 + 9 * level), 0x1ff)));
    if e.r == 0 && e.w == 0 && e.x == 0 then Violation
    else if e.r == 0 then Misconfigured
    else if level == 0 then
      if e.memType == 2 || e.memType == 3 || e.memType == 7 then Misconfigured
      else Translated(PAGE * e.frame + gpa % PAGE, e.memType, e.w == 1, e.x == 1)
    else if level == 3 && e.pageSize == 1 then Misconfigured
    else if e.pageSize == 1 then
      if e.memType == 2 || e.memType == 3 || e.memType == 7 then Misconfigured else LargePage
    else if e.memType != 0 || e.ignorePat != 0 then Misconfigured
    else
      match EptWalk(mem, PAGE * e.frame, gpa, level - 1)
      case Translated(a, t, w, x) => Translated(a, t, w && e.w == 1, x && e.x == 1)
      case other => other
  }

  /** The EPT pointer that invept and the VMCS carry: root | 6 | (4 - 1) << 3. */
  function Eptp(root: nat): nat {
    Or(Or(root, EPT_WB), Shl(EPT_LEVELS - 1, 3))
  }

  /** The walk of section 28.2.2 from an EPT pointer; bits 51:12 hold the root table. */
  function Translate(mem: Memory, eptp: nat, gpa: nat): EptResult {
    EptWalk(mem, PAGE * (eptp / PAGE % FRAMES), gpa, eptp / 8 % 8)
  }

  lemma EptpValue(root: nat)
    requires root % PAGE == 0
    ensures Eptp(root) == root + 30
  {
    assert Shl(3, 3) == 24 && Or(6, 24) == 30;
    hide Or, Shl;
    PowersInUse();
    OrAssociates(root, EPT_WB, 24);
    OrDisjoint(root, 30, 12);
  }

  /** The EPTP encodes write-back, a walk of four levels, and the root. */
  lemma EptpFields(root: nat)
    requires root % PAGE == 0 && root < PAGE * FRAMES
    ensures
      var p := Eptp(root);
      p % 8 == EPT_WB && p / 8 % 8 == EPT_LEVELS - 1 && PAGE * (p / PAGE % FRAMES) == root
  {
    hide Eptp;
    EptpValue(root);
    var f := root / PAGE;
    assert root == 4096 * f;
    DivModUnique(root + 30, 8, 3 + 8 * (64 * f), 6);
    DivModUnique(3 + 8 * (64 * f), 8, 64 * f, 3);
    DivModUnique(root + 30, PAGE, f, 30);
    DivModUnique(f, FRAMES, 0, f);
  }

  // ---------------------------------------------------------------------------------------
  // The identity map

  /** A tree whose leaves map each page in it to itself, read-write-execute and write-back. */
  ghost predicate IdentityTree(pm: Pm, root: nat, tables: Tables, pages: Pages) {
    && Tree(pm, root, tables, pages)
    && forall p :: p in pages ==> pages[p] == EptLeaf(p)
  }

  lemma ZeroIsEmpty()
    ensures Encode(ZERO_ENTRY) == 0
  {
  }

  lemma LeafIsRwx(frame: nat)
    requires frame < FRAMES
    ensures EptLeaf(frame) == Encode(Rwx(frame, EPT_WB))
  {
    DivModUnique(frame, FRAMES, 0, frame);
  }

  lemma LeafValue(frame: nat)
    requires frame < FRAMES
    ensures EptLeaf(frame) == PAGE * frame + 55
  {
    DivModUnique(frame, FRAMES, 0, frame);
  }

  /** The three kinds of word an identity tree holds, as the processor reads them. */
  lemma WordsDecoded(frame: nat)
    requires frame < FRAMES
    ensures Decode(0) == ZERO_ENTRY
    ensures Decode(LinkWord(frame)) == Rwx(frame, 0)
    ensures Decode(EptLeaf(frame)) == Rwx(frame, EPT_WB)
  {
    hide Encode, Decode, LinkWord, EptLeaf;
    LinkIsRwx(frame);
    LeafIsRwx(frame);
    ZeroIsEmpty();
    EntryRoundTrip(ZERO_ENTRY);
    EntryRoundTrip(Rwx(frame, EPT_WB));
  }

  /** The walk stops at a missing link, and passes a clean one. */
  lemma WalkThroughLink(mem: Memory, table: nat, gpa: nat, level: nat, frame: nat)
    requires 0 < level <= 3 && frame < FRAMES
    ensures
      var w := Read(mem, Slot(table, Index(gpa / PAGE, level)));
      && (w == 0 ==> EptWalk(mem, PAGE * table, gpa, level) == Violation)
      && (w == LinkWord(frame) ==>
            EptWalk(mem, PAGE * table, gpa, level) == EptWalk(mem, PAGE * frame, gpa, level - 1))
  {
    hide Decode, And, Shr, LinkWord, EptLeaf;
    ShiftedAddress(gpa, level);
    WordsDecoded(frame);
  }

  lemma WalkAtLeaf(mem: Memory, table: nat, gpa: Gpa)
    ensures
      var w := Read(mem, Slot(table, Index(gpa / PAGE, 0)));
      && (w == 0 ==> EptWalk(mem, PAGE * table, gpa, 0) == Violation)
      && (w == EptLeaf(gpa / PAGE) ==> EptWalk(mem, PAGE * table, gpa, 0) == Translated(gpa, EPT_WB, true, true))
  {
    hide Decode, And, Shr, EptLeaf;
    ShiftedAddress(gpa, 0);
    WordsDecoded(gpa / PAGE);
  }

  lemma {:induction false} WalkIsIdentityFrom(pm: Pm, root: nat, tables: Tables, pages: Pages, gpa: Gpa, level: nat)
    requires IdentityTree(pm, root, tables, pages) && level <= 3
    requires KeyOf(gpa / PAGE, level) in tables
    ensures
      EptWalk(pm.mem, PAGE * tables[KeyOf(gpa / PAGE, level)], gpa, level)
        == if gpa / PAGE in pages then Translated(gpa, EPT_WB, true, true) else Violation
    decreases level
  {
    hide Decode, And, Shr, EptLeaf, LinkWord;
    var page := gpa / PAGE;
    var table := tables[KeyOf(page, level)];
    PathEntry(pm, root, tables, pages, page, level);
    if page in pages {
      MappedPathPresent(tables, pages, page);
    }
    if level == 0 {
      WalkAtLeaf(pm.mem, table, gpa);
    } else if KeyOf(page, level - 1) in tables {
      WalkThroughLink(pm.mem, table, gpa, level, tables[KeyOf(page, level - 1)]);
      WalkIsIdentityFrom(pm, root, tables, pages, gpa, level - 1);
    } else {
      WalkThroughLink(pm.mem, table, gpa, level, 0);
      assert KeyOf(page, level - 1) in Path(page);
    }
  }

  /** No access meets a misconfigured entry or a large page: it is identity-mapped or it exits. */
  lemma TranslateIsIdentity(pm: Pm, root: nat, tables: Tables, pages: Pages, gpa: Gpa)
    requires IdentityTree(pm, root, tables, pages)
    ensures
      Translate(pm.mem, Eptp(PAGE * root), gpa)
        == if gpa / PAGE in pages then Translated(gpa, EPT_WB, true, true) else Violation
  {
    hide Decode, EptWalk, Eptp;
    PrefixBound(gpa / PAGE, 3);
    EptpFields(PAGE * root);
    WalkIsIdentityFrom(pm, root, tables, pages, gpa, 3);
  }

  /** The entry each word of a table decodes to. */
  function CleanEntry(tables: Tables, pages: Pages, k: Key, i: nat): EptEntry {
    if k.level > 0 && Child(k, i) in tables then Rwx(tables[Child(k, i)] % FRAMES, 0)
    else if k.level == 0 && FANOUT * k.prefix + i in pages then Rwx((FANOUT * k.prefix + i) % FRAMES, EPT_WB)
    else ZERO_ENTRY
  }

  lemma ExpectedDecodes(tables: Tables, pages: Pages, k: Key, i: nat)
    requires k.level > 0 && Child(k, i) in tables ==> tables[Child(k, i)] < FRAMES
    requires
      var p := FANOUT * k.prefix + i;
      k.level == 0 && p in pages ==> p < FRAMES && pages[p] == EptLeaf(p)
    ensures Decode(Expected(tables, pages, k, i)) == CleanEntry(tables, pages, k, i)
  {
    hide Decode, EptLeaf, LinkWord;
    WordsDecoded(0);
    if k.level > 0 && Child(k, i) in tables {
      WordsDecoded(tables[Child(k, i)]);
    } else if k.level == 0 && FANOUT * k.prefix + i in pages {
      WordsDecoded(FANOUT * k.prefix + i);
    }
  }

  lemma EntryFacts(pm: Pm, root: nat, tables: Tables, pages: Pages, k: Key, i: nat)
    requires IdentityTree(pm, root, tables, pages) && k in tables && i < FANOUT
    ensures Read(pm.mem, Slot(tables[k], i)) == Expected(tables, pages, k, i)
    ensures forall j :: j in tables ==> tables[j] < FRAMES
    ensures forall p :: p in pages ==> p < FRAMES && pages[p] == EptLeaf(p)
  {
    hide EptLeaf;
  }

  /** Every word of every table is all zero, a clean rwx link, or an rwx write-back leaf. */
  lemma EveryEntryClean(pm: Pm, root: nat, tables: Tables, pages: Pages, k: Key, i: nat)
    requires IdentityTree(pm, root, tables, pages) && k in tables && i < FANOUT
    ensures
      Decode(Read(pm.mem, Slot(tables[k], i))) ==
        if k.level > 0 && Child(k, i) in tables then Rwx(tables[Child(k, i)], 0)
        else if k.level == 0 && FANOUT * k.prefix + i in pages then Rwx(FANOUT * k.prefix + i, EPT_WB)
        else ZERO_ENTRY
  {
    hide Decode, EptLeaf, IdentityTree, Expected, Slot, Read;
    EntryFacts(pm, root, tables, pages, k, i);
    ExpectedDecodes(tables, pages, k, i);
  }

  /** Mapping a page that is already mapped changes neither memory nor the allocator. */
  lemma RemapIsIdentity(pm: Pm, root: nat, tables: Tables, pages: Pages, page: nat)
    requires IdentityTree(pm, root, tables, pages) && page in pages
    ensures MapLeaf(pm, root, page, EptLeaf(page)) == pm
  {
    hide Decode, EptLeaf;
    MappedPathPresent(tables, pages, page);
    DescendPresent(pm, root, tables, pages, page, 3);
    PathEntry(pm, root, tables, pages, page, 0);
    WordsDecoded(page);
    var slot := Slot(tables[KeyOf(page, 0)], Index(page, 0));
    assert EptLeaf(page) != 0;
    assert pm.mem[slot := EptLeaf(page)] == pm.mem;
  }

  lemma {:induction false} DescendPresent(pm: Pm, root: nat, tables: Tables, pages: Pages, page: nat, level: nat)
    requires Tree(pm, root, tables, pages) && page < PAGES && level <= 3
    requires forall l: nat :: l <= level ==> KeyOf(page, l) in tables
    ensures Descend(pm, tables[KeyOf(page, level)], page, level) == (pm, tables[KeyOf(page, 0)])
    decreases level
  {
    if level == 0 {
    } else {
      PathEntry(pm, root, tables, pages, page, level);
      LinkRoundTrip(tables[KeyOf(page, level - 1)]);
      DescendPresent(pm, root, tables, pages, page, level - 1);
    }
  }

  // ---------------------------------------------------------------------------------------
  // Runs

  type Align = a: nat | a > 0 witness 1

  /** What happens to memory once the root exists: ept_map, any other allocation, any other store. */
  datatype Op = Map(address: Gpa) | Allocate(size: nat, align: Align) | Store(a: nat, w: Word)

  function Apply(pm: Pm, root: nat, op: Op): Pm {
    match op
    case Map(address) => MapLeaf(pm, root, address / PAGE, EptLeaf(address / PAGE))
    case Allocate(size, align) => Palloc(pm, size, align)
    case Store(a, w) => pm.(mem := pm.mem[a := w])
  }

  function ApplyAll(pm: Pm, root: nat, ops: seq<Op>): Pm {
    if ops == [] then pm else Apply(ApplyAll(pm, root, ops[..|ops| - 1]), root, ops[|ops| - 1])
  }

  /** The tables and the allocator after a run. */
  function After(tables: Tables, base: nat, ops: seq<Op>): (Tables, nat) {
    if ops == [] then (tables, base)
    else
      var (t, b) := After(tables, base, ops[..|ops| - 1]);
      match ops[|ops| - 1]
      case Map(address) => Grown(t, b, address / PAGE, 3)
      case Allocate(size, align) => (t, AlignUp(b, align) + size)
      case Store(_, _) => (t, b)
  }

  /** Room is left after every other allocation, and no other store goes to a table there is by then. */
  ghost predicate Allowed(tables: Tables, base: nat, ops: seq<Op>) {
    if ops == [] then Room(tables, base)
    else
      && Allowed(tables, base, ops[..|ops| - 1])
      && var (t, b) := After(tables, base, ops[..|ops| - 1]);
         match ops[|ops| - 1]
         case Map(_) => true
         case Allocate(size, align) => Room(t, AlignUp(b, align) + size)
         case Store(a, _) => OutsideTables(t, a)
  }

  function PagesOf(ops: seq<Op>): set<nat> {
    set op | op in ops && op.Map? :: op.address / PAGE
  }

  /** init_ept from an allocator and memory in any state. */
  function Init(pm: Pm): (Pm, nat) { AllocFrame(pm) }

  lemma InitIsEmptyTree(pm: Pm)
    requires RoomForAll(pm)
    ensures
      var (pm', root) := Init(pm);
      IdentityTree(pm', root, map[ROOT := root], map[]) && Room(map[ROOT := root], pm'.base)
  {
    RootIsEmptyTree(pm);
  }

  lemma MapKeepsIdentity(pm: Pm, root: nat, tables: Tables, pages: Pages, page: nat)
    requires IdentityTree(pm, root, tables, pages) && Room(tables, pm.base) && page < PAGES
    ensures
      var pm' := MapLeaf(pm, root, page, EptLeaf(page));
      var (tables', base') := Grown(tables, pm.base, page, 3);
      IdentityTree(pm', root, tables', pages[page := EptLeaf(page)]) && Room(tables', pm'.base) && pm'.base == base'
  {
    hide EptLeaf, MapLeaf, Grown;
    MapLeafRefinesUpdate(pm, root, tables, pages, page, EptLeaf(page));
  }

  lemma AllocationKeepsIdentity(pm: Pm, root: nat, tables: Tables, pages: Pages, size: nat, align: Align)
    requires IdentityTree(pm, root, tables, pages) && Room(tables, Palloc(pm, size, align).base)
    ensures IdentityTree(Palloc(pm, size, align), root, tables, pages)
  {
    hide Tree, Palloc, EptLeaf;
    AllocationKeepsTree(pm, root, tables, pages, size, align);
  }

  lemma StoreKeepsIdentity(pm: Pm, root: nat, tables: Tables, pages: Pages, a: nat, w: Word)
    requires IdentityTree(pm, root, tables, pages) && Room(tables, pm.base) && OutsideTables(tables, a)
    ensures IdentityTree(pm.(mem := pm.mem[a := w]), root, tables, pages)
  {
    hide Tree, EptLeaf;
    StoreKeepsTree(pm, root, tables, pages, a, w);
  }

  lemma PagesOfLast(ops: seq<Op>, op: Op)
    ensures PagesOf(ops + [op]) == PagesOf(ops) + (if op.Map? then {op.address / PAGE} else {})
  {
    var more := ops + [op];
    forall p | p in PagesOf(more)
      ensures p in PagesOf(ops) + (if op.Map? then {op.address / PAGE} else {})
    {
      var b :| b in more && b.Map? && p == b.address / PAGE;
      assert b in ops || b == op;
    }
    forall p | p in PagesOf(ops)
      ensures p in PagesOf(more)
    {
      var b :| b in ops && b.Map? && p == b.address / PAGE;
      assert b in more;
    }
    assert op in more;
  }

  /** One operation keeps the identity map: exactly ept_map's page is added. */
  lemma ApplyKeepsIdentity(pm: Pm, root: nat, tables: Tables, pages: Pages, op: Op) returns (pages': Pages)
    requires IdentityTree(pm, root, tables, pages) && Room(tables, pm.base) && Allowed(tables, pm.base, [op])
    ensures
      var (tables', base') := After(tables, pm.base, [op]);
      var pm' := Apply(pm, root, op);
      IdentityTree(pm', root, tables', pages') && Room(tables', base') && pm'.base == base'
    ensures pages'.Keys == pages.Keys + if op.Map? then {op.address / PAGE} else {}
  {
    assert [op][..0] == [];
    hide IdentityTree, EptLeaf, MapLeaf, Grown, AlignUp, OutsideTables;
    pages' := pages;
    match op {
      case Map(address) =>
        MapKeepsIdentity(pm, root, tables, pages, address / PAGE);
        pages' := pages[address / PAGE := EptLeaf(address / PAGE)];
        KeysWith(pages, address / PAGE, EptLeaf(address / PAGE));
      case Allocate(size, align) => AllocationKeepsIdentity(pm, root, tables, pages, size, align);
      case Store(a, w) => StoreKeepsIdentity(pm, root, tables, pages, a, w);
    }
  }

  lemma KeysWith(pages: Pages, page: nat, leaf: Word)
    ensures pages[page := leaf].Keys == pages.Keys + {page}
  {
  }

  /** What the last operation of a run starts from and does. */
  lemma LastOp(tables: Tables, base: nat, ops: seq<Op>)
    requires ops != [] && Allowed(tables, base, ops)
    ensures
      var before, op := ops[..|ops| - 1], ops[|ops| - 1];
      var (t, b) := After(tables, base, before);
      && Allowed(tables, base, before)
      && (Room(t, b) ==> Allowed(t, b, [op]) && After(t, b, [op]) == After(tables, base, ops))
  {
    var before, op := ops[..|ops| - 1], ops[|ops| - 1];
    var (t, b) := After(tables, base, before);
    assert [op][..0] == [];
    assert After(t, b, []) == (t, b);
  }

  /** Any run from any identity tree leaves an identity tree of the pages there were and those mapped. */
  lemma {:induction false} RunKeepsIdentity(pm: Pm, root: nat, tables: Tables, pages: Pages, ops: seq<Op>)
      returns (pages': Pages)
    requires IdentityTree(pm, root, tables, pages) && Allowed(tables, pm.base, ops)
    ensures
      var end, (tables', base') := ApplyAll(pm, root, ops), After(tables, pm.base, ops);
      end.base == base' && IdentityTree(end, root, tables', pages') && Room(tables', base')
    ensures pages'.Keys == pages.Keys + PagesOf(ops)
    decreases |ops|
  {
    hide *;
    NoOps(pm, root, tables);
    if ops == [] {
      pages' := pages;
    } else {
      var before, op := ops[..|ops| - 1], ops[|ops| - 1];
      LastOp(tables, pm.base, ops);
      LastApplied(pm, root, ops);
      var old' := RunKeepsIdentity(pm, root, tables, pages, before);
      var pm', t := ApplyAll(pm, root, before), After(tables, pm.base, before).0;
      pages' := ApplyKeepsIdentity(pm', root, t, old', op);
      UnionMoves(pages.Keys, PagesOf(before), if op.Map? then {op.address / PAGE} else {});
    }
  }

  lemma UnionMoves(a: set<nat>, b: set<nat>, c: set<nat>)
    ensures (a + b) + c == a + (b + c)
  {
  }

  lemma NoOps(pm: Pm, root: nat, tables: Tables)
    ensures ApplyAll(pm, root, []) == pm && After(tables, pm.base, []) == (tables, pm.base) && PagesOf([]) == {}
    ensures Allowed(tables, pm.base, []) ==> Room(tables, pm.base)
  {
  }

  lemma LastApplied(pm: Pm, root: nat, ops: seq<Op>)
    requires ops != []
    ensures
      var before, op := ops[..|ops| - 1], ops[|ops| - 1];
      && ApplyAll(pm, root, ops) == Apply(ApplyAll(pm, root, before), root, op)
      && PagesOf(ops) == PagesOf(before) + if op.Map? then {op.address / PAGE} else {}
  {
    var before, op := ops[..|ops| - 1], ops[|ops| - 1];
    PagesOfLast(before, op);
    assert ops == before + [op];
  }

  /**
   The EPT after any run of ept_map calls, with any other allocations and stores between them, from
   any identity tree: each access to a page mapped before or during the run reaches its own address,
   and each other access is a violation.
   */
  lemma RunIsIdentityMap(pm: Pm, root: nat, tables: Tables, pages: Pages, ops: seq<Op>)
    requires IdentityTree(pm, root, tables, pages) && Allowed(tables, pm.base, ops)
    ensures
      forall gpa: Gpa ::
        Translate(ApplyAll(pm, root, ops).mem, Eptp(PAGE * root), gpa)
          == if gpa / PAGE in pages.Keys + PagesOf(ops) then Translated(gpa, EPT_WB, true, true) else Violation
  {
    hide Decode, EptWalk, Eptp, Translate, IdentityTree, Allowed, After, PagesOf;
    var pages' := RunKeepsIdentity(pm, root, tables, pages, ops);
    var end := ApplyAll(pm, root, ops);
    forall gpa: Gpa
      ensures Translate(end.mem, Eptp(PAGE * root), gpa)
        == if gpa / PAGE in pages.Keys + PagesOf(ops) then Translated(gpa, EPT_WB, true, true) else Violation
    {
      TranslateIsIdentity(end, root, After(tables, pm.base, ops).0, pages', gpa);
    }
  }

  /** In particular from init_ept: the pages that translate are exactly those mapped since. */
  lemma InitThenRunIsIdentityMap(pm: Pm, ops: seq<Op>)
    requires RoomForAll(pm) && var (start, root) := Init(pm); Allowed(map[ROOT := root], start.base, ops)
    ensures
      var (start, root) := Init(pm);
      forall gpa: Gpa ::
        Translate(ApplyAll(start, root, ops).mem, Eptp(PAGE * root), gpa)
          == if gpa / PAGE in PagesOf(ops) then Translated(gpa, EPT_WB, true, true) else Violation
  {
    hide EptWalk, Eptp, Translate, IdentityTree, Allowed, PagesOf;
    InitIsEmptyTree(pm);
    var (start, root) := Init(pm);
    RunIsIdentityMap(start, root, map[ROOT := root], map[], ops);
    assert {} + PagesOf(ops) == PagesOf(ops);
  }

  // ---------------------------------------------------------------------------------------
  // How many tables

  /** Whatever else is allocated between, the tables are the root and the paths of the pages mapped. */
  lemma {:induction false} RunKeepsPaths(tables: Tables, base: nat, pages: set<nat>, ops: seq<Op>)
    requires OnlyPaths(tables.Keys, pages)
    ensures OnlyPaths(After(tables, base, ops).0.Keys, pages + PagesOf(ops))
    decreases |ops|
  {
    hide OnlyPaths, Grown, Path, PagesOf, AlignUp, MapLeaf, EptLeaf;
    if ops == [] {
      NoOps(Pm(map[], base), 0, tables);
      assert pages + PagesOf(ops) == pages;
    } else {
      var before, op := ops[..|ops| - 1], ops[|ops| - 1];
      RunKeepsPaths(tables, base, pages, before);
      LastApplied(Pm(map[], base), 0, ops);
      var (t, b) := After(tables, base, before);
      assert pages + PagesOf(ops) == pages + PagesOf(before) + if op.Map? then {op.address / PAGE} else {};
      if op.Map? {
        GrownTables(t, b, op.address / PAGE);
        OnlyPathsAfter(t.Keys, pages + PagesOf(before), op.address / PAGE);
      }
    }
  }

  /** One root, and one table for each distinct 9-, 18- and 27-bit prefix of the pages mapped since init_ept. */
  lemma RunHasOneTablePerPrefix(pm: Pm, ops: seq<Op>)
    ensures
      var (start, root) := Init(pm);
      var touched := PagesOf(ops);
      var n := |After(map[ROOT := root], start.base, ops).0|;
      n == 1 + |PrefixesOf(touched, 2)| + |PrefixesOf(touched, 1)| + |PrefixesOf(touched, 0)| <= 1 + 3 * |touched|
  {
    var (start, root) := Init(pm);
    var tables: Tables := map[ROOT := root];
    assert tables.Keys == {ROOT};
    RunKeepsPaths(tables, start.base, {}, ops);
    assert {} + PagesOf(ops) == PagesOf(ops);
    var after := After(tables, start.base, ops).0;
    PathTableCount(after.Keys, PagesOf(ops));
    assert |after| == |after.Keys|;
  }

  /** If nothing else is allocated, a table costs a page. */
  lemma {:induction false} OnlyTablesTaken(start: nat, tables: Tables, base: nat, ops: seq<Op>)
    requires start % PAGE == 0 && base == start + PAGE * |tables| && forall op :: op in ops ==> !op.Allocate?
    ensures var (t, b) := After(tables, base, ops); b == start + PAGE * |t|
    decreases |ops|
  {
    if ops == [] {
    } else {
      var before, op := ops[..|ops| - 1], ops[|ops| - 1];
      OnlyTablesTaken(start, tables, base, before);
      var (t, b) := After(tables, base, before);
      if op.Map? {
        BytesGrown(start, b, t, op.address / PAGE);
      }
    }
  }

  lemma BytesGrown(start: nat, base: nat, tables: Tables, page: nat)
    requires start % PAGE == 0 && base == start + PAGE * |tables|
    ensures
      var (tables', base') := Grown(tables, base, page, 3);
      base' == start + PAGE * |tables'|
  {
    DivModUnique(base, PAGE, start / PAGE + |tables|, 0);
    GrownBytes(tables, base, page, 3);
  }

  /** So m_base moves by exactly a page for the root and for each prefix. */
  lemma RunTakesOnePagePerPrefix(pm: Pm, ops: seq<Op>)
    requires pm.base % PAGE == 0 && RoomForAll(pm) && forall op :: op in ops ==> !op.Allocate?
    requires var (start, root) := Init(pm); Allowed(map[ROOT := root], start.base, ops)
    ensures
      var (start, root) := Init(pm);
      var touched := PagesOf(ops);
      var taken := 1 + |PrefixesOf(touched, 2)| + |PrefixesOf(touched, 1)| + |PrefixesOf(touched, 0)|;
      ApplyAll(start, root, ops).base == pm.base + PAGE * taken
  {
    var (start, root) := Init(pm);
    var tables: Tables := map[ROOT := root];
    assert |tables| == 1;
    InitIsEmptyTree(pm);
    hide IdentityTree, Allowed, After, ApplyAll, PrefixesOf, PagesOf;
    RunHasOneTablePerPrefix(pm, ops);
    OnlyTablesTaken(pm.base, tables, start.base, ops);
    var pages := RunKeepsIdentity(start, root, tables, map[], ops);
  }

  // ---------------------------------------------------------------------------------------
  // The size init_pmm ignores

  /** What the loader sets aside behind its own allocations. */
  const RESERVED: nat := 0x20_0000

  /** ept_map can be called with any address at any time: only other allocations and stores have conditions. */
  lemma {:induction false} MapsAreAllowed(tables: Tables, base: nat, ops: seq<Op>)
    requires Room(tables, base) && forall op :: op in ops ==> op.Map?
    ensures Allowed(tables, base, ops)
    decreases |ops|
  {
    if ops == [] {
    } else {
      MapsAreAllowed(tables, base, ops[..|ops| - 1]);
    }
  }

  /**
   After init_pmm(from, size) and init_ept, the run stays below from + size, which nothing checks, exactly
   when the whole pages there are enough for the root and one table for each prefix.
   */
  lemma StaysInsideIff(pm: Pm, from: nat, size: nat, ops: seq<Op>)
    requires pm.base == PAGE * FrameUp(from) && RoomForAll(pm) && forall op :: op in ops ==> !op.Allocate?
    requires var (start, root) := Init(pm); Allowed(map[ROOT := root], start.base, ops)
    ensures
      var (start, root) := Init(pm);
      var touched := PagesOf(ops);
      var taken := 1 + |PrefixesOf(touched, 2)| + |PrefixesOf(touched, 1)| + |PrefixesOf(touched, 0)|;
      && (ApplyAll(start, root, ops).base <= from + size <==> FrameUp(from) + taken <= (from + size) / PAGE)
      && taken <= 1 + 3 * |touched|
  {
    hide Allowed, ApplyAll, PrefixesOf, PagesOf;
    RunTakesOnePagePerPrefix(pm, ops);
    RunHasOneTablePerPrefix(pm, ops);
  }

  /** One page in each 2 MiB region of the first GiB. */
  function PagePerRegion(): seq<Op> { seq(512, i requires 0 <= i < 512 => Map(RESERVED * i)) }

  lemma {:induction false} SizeOfBelow(s: set<nat>, n: nat)
    requires forall x: nat :: x in s <==> x < n
    ensures |s| == n
  {
    if n == 0 {
      assert s == {};
    } else {
      SizeOfBelow(s - {n - 1}, n - 1);
      assert s == (s - {n - 1}) + {n - 1};
    }
  }

  lemma RegionsTouched(p: nat)
    ensures p in PagesOf(PagePerRegion()) <==> p % FANOUT == 0 && p / FANOUT < 512
  {
    var ops := PagePerRegion();
    if p % FANOUT == 0 && p / FANOUT < 512 {
      assert ops[p / FANOUT] in ops && ops[p / FANOUT].address / PAGE == p;
    }
    if p in PagesOf(ops) {
      var op :| op in ops && op.Map? && p == op.address / PAGE;
      var i: nat :| i < 512 && ops[i] == op;
      assert p == FANOUT * i;
    }
  }

  /** These pages share their upper tables and nothing else. */
  lemma PrefixesOfRegions()
    ensures
      var touched := PagesOf(PagePerRegion());
      |PrefixesOf(touched, 2)| == 1 && |PrefixesOf(touched, 1)| == 1 && |PrefixesOf(touched, 0)| == 512
  {
    hide PagesOf, PagePerRegion;
    var touched := PagesOf(PagePerRegion());
    RegionsTouched(0);
    forall i: nat | i < 512
      ensures i in PrefixesOf(touched, 0)
    {
      RegionsTouched(FANOUT * i);
      assert Prefix(FANOUT * i, 0) == i;
    }
    forall p | p in touched
      ensures Prefix(p, 0) < 512 && Prefix(p, 1) == 0 && Prefix(p, 2) == 0
    {
      RegionsTouched(p);
    }
    assert Prefix(0, 1) == 0 && Prefix(0, 2) == 0;
    assert PrefixesOf(touched, 2) == {0};
    assert PrefixesOf(touched, 1) == {0};
    SizeOfBelow(PrefixesOf(touched, 0), 512);
  }

  lemma RegionsAreMapped()
    ensures forall op :: op in PagePerRegion() ==> op.Map? && !op.Allocate?
  {
  }

  /** So touching 512 pages of the first GiB takes 515 pages, more than all the loader has set aside. */
  lemma FirstGibOverflows(pm: Pm, from: nat)
    requires pm.base == PAGE * FrameUp(from) && RoomForAll(pm)
    ensures
      var (start, root) := Init(pm);
      var end := ApplyAll(start, root, PagePerRegion());
      end.base == pm.base + PAGE * 515 && end.base > from + RESERVED
  {
    hide Allowed, ApplyAll, PrefixesOf, PagesOf, PagePerRegion, IdentityTree, Init, Room, RoomForAll;
    var (start, root) := Init(pm);
    var ops := PagePerRegion();
    InitIsEmptyTree(pm);
    RegionsAreMapped();
    MapsAreAllowed(map[ROOT := root], start.base, ops);
    RunTakesOnePagePerPrefix(pm, ops);
    PrefixesOfRegions();
  }
}
