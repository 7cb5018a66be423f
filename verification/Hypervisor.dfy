/**
 The hypervisor's physical allocator and EPT as the program keeps them: three words of global
 state that every call updates in place, and memory.
 */
module Hypervisors {
  import opened Bits
  import opened RadixTree
  import opened Ept
  import opened DemandPaging

  datatype Err = NoError | OutOfResources

  function Get(mem: Memory, slot: nat): EptEntry { Decode(Read(mem, slot)) }

  function Put(mem: Memory, slot: nat, e: EptEntry): Memory {
    EncodeFits(e);
    mem[slot := Encode(e)]
  }

  lemma GetPut(mem: Memory, slot: nat, e: EptEntry)
    ensures Get(Put(mem, slot, e), slot) == e
  {
    EntryRoundTrip(e);
  }

  lemma PutPut(mem: Memory, slot: nat, e: EptEntry, e': EptEntry)
    ensures Put(Put(mem, slot, e), slot, e') == Put(mem, slot, e')
  {
  }

  /** An entry whose named fields are frame, r, w and x, whatever was stored over what. */
  lemma RwxStored(mem: Memory, slot: nat, frame: nat)
    requires frame < FRAMES
    ensures Put(mem, slot, Rwx(frame, 0)) == mem[slot := LinkWord(frame)]
    ensures Put(mem, slot, Rwx(frame, EPT_WB)) == mem[slot := EptLeaf(frame)]
  {
    hide Encode, Decode, LinkWord, EptLeaf;
    LinkIsRwx(frame);
    LeafIsRwx(frame);
  }

  /** What one level of the loop finds, and that taking or making the link keeps the tree. */
  lemma LevelFacts(pm: Pm, root: nat, tables: Tables, pages: Pages, page: nat, level: nat)
    requires IdentityTree(pm, root, tables, pages) && Room(tables, pm.base)
    requires page < PAGES && 0 < level <= 3 && KeyOf(page, level) in tables
    ensures
      var k := KeyOf(page, level - 1);
      var slot := Slot(tables[KeyOf(page, level)], Index(page, level));
      var (pm', next) := NextTable(pm, tables[KeyOf(page, level)], Index(page, level));
      var tables' := WithTable(tables, pm.base, k);
      && IdentityTree(pm', root, tables', pages) && Room(tables', pm'.base)
      && pm'.base == BaseWith(tables, pm.base, k) && k in tables' && next == tables'[k]
      && if k in tables then
           pm' == pm && Get(pm.mem, slot) == Rwx(tables[k], 0)
         else
           var f := FrameUp(pm.base);
           && root < f < FRAMES
           && Get(pm.mem, slot) == Get(ZeroFrame(pm.mem, f), slot) == ZERO_ENTRY
           && pm' == Pm(ZeroFrame(pm.mem, f)[slot := LinkWord(f)], PAGE * f + PAGE)
  {
    hide Decode, EptLeaf, LinkWord;
    var up, k := KeyOf(page, level), KeyOf(page, level - 1);
    PathEntry(pm, root, tables, pages, page, level);
    NextTableKeepsTree(pm, root, tables, pages, page, level);
    if k in tables {
      LinkRoundTrip(tables[k]);
      WordsDecoded(tables[k]);
    } else {
      WordsDecoded(0);
      PrefixBound(page, level - 1);
      AddedTable(tables, pm.base, k);
    }
  }

  lemma RootFrame(pm: Pm, root: nat, tables: Tables, pages: Pages)
    requires IdentityTree(pm, root, tables, pages)
    ensures ROOT in tables && tables[ROOT] == root
  {
  }

  /** A leaf slot is empty or already holds the page's leaf. */
  lemma LeafFacts(pm: Pm, root: nat, tables: Tables, pages: Pages, page: nat)
    requires IdentityTree(pm, root, tables, pages) && page < PAGES && KeyOf(page, 0) in tables
    ensures
      Get(pm.mem, Slot(tables[KeyOf(page, 0)], Index(page, 0))) ==
        if page in pages then Rwx(page, EPT_WB) else ZERO_ENTRY
  {
    hide Decode, EptLeaf;
    PathEntry(pm, root, tables, pages, page, 0);
    WordsDecoded(page);
  }

  lemma TablesBelow(pm: Pm, root: nat, tables: Tables, pages: Pages)
    requires IdentityTree(pm, root, tables, pages)
    ensures forall a: nat :: pm.base <= a ==> OutsideTables(tables, a)
  {
  }

  function PageOfAction(action: Action): nat { if action.Touches() then action.address / PAGE else 0 }

  lemma PageOfTouch(action: Action)
    ensures action.Touches() ==> PageOfAction(action) == action.address / PAGE
  {
  }

  lemma WhatIsServed(c: Cpu, start: Pm, root: nat, tables: Tables, mapped: set<nat>, actions: seq<Action>)
    requires Served(c, start, root, tables, mapped, Program(actions))
    ensures !c.stopped && c.faults == FirstTouches(Program(actions), mapped)
    ensures SameOutside(WithPages(tables, start.base, c.faults).0, Stored(start.mem, Program(actions)), c.pm.mem)
    ensures forall i :: 0 <= i < HltAt(actions) && actions[i].Touches() ==>
              Translate(c.pm.mem, Eptp(PAGE * root), actions[i].address)
                == Translated(actions[i].address, EPT_WB, true, true)
  {
    hide EptWalk, Eptp, Translate, SameOutside, WithPages, Stored, FirstTouches;
    forall i | 0 <= i < HltAt(actions) && actions[i].Touches()
      ensures Translate(c.pm.mem, Eptp(PAGE * root), actions[i].address)
        == Translated(actions[i].address, EPT_WB, true, true)
    {
      assert Program(actions)[i] == actions[i];
    }
  }

  lemma AlignedStays(n: nat)
    requires n % PAGE == 0
    ensures AlignUp(n, 0x1000) == n
  {
    AlignUpToFrame(n);
    assert FrameUp(n) == n / PAGE && PAGE * (n / PAGE) == n;
  }

  /** A block reads zero, but for its first word if it holds a revision number; other words are as before. */
  ghost predicate ZeroedAt(was: Memory, mem: Memory, block: nat, size: nat) {
    forall a: nat :: Read(mem, a) == if block <= a < block + size then 0 else Read(was, a)
  }

  ghost predicate RevisedAt(was: Memory, mem: Memory, block: nat, size: nat, revision: Word) {
    forall a: nat :: Read(mem, a) ==
      if a == block then revision else if block <= a < block + size then 0 else Read(was, a)
  }

  lemma ZeroedThenRevised(was: Memory, zeroed: Memory, block: nat, size: nat, revision: Word)
    requires ZeroedAt(was, zeroed, block, size)
    ensures RevisedAt(was, zeroed[block := revision], block, size, revision)
  {
    var mem := zeroed[block := revision];
    forall a: nat
      ensures Read(mem, a) ==
        if a == block then revision else if block <= a < block + size then 0 else Read(was, a)
    {
      assert Read(mem, a) == if a == block then revision else Read(zeroed, a);
    }
  }

  lemma StartRoom(f: nat, vmcsSize: nat, tables: Tables)
    requires FrameUp(PAGE * (f + 2) + vmcsSize) + MAX_TABLES <= FRAMES && |tables| == 1
    ensures Room(tables, PAGE * f + 0x2000) && Room(tables, PAGE * f + 0x2000 + vmcsSize)
  {
  }

  lemma StartBase(f: nat)
    ensures FrameUp(PAGE * f) == f && (PAGE * f + PAGE) % PAGE == 0 && (PAGE * f + 0x2000) % PAGE == 0
  {
  }

  /** Three pieces of memory, one behind the other. */
  lemma StartWords(was: Memory, m1: Memory, m2: Memory, mem: Memory, root: nat, vmcsSize: nat, revision: Word)
    requires ZeroedAt(was, m1, root, 0x1000) && RevisedAt(m1, m2, root + 0x1000, 0x1000, revision)
    requires RevisedAt(m2, mem, root + 0x2000, vmcsSize, revision)
    ensures
      forall a: nat :: Read(mem, a) == if a == root + 0x1000 || a == root + 0x2000 then revision
        else if root <= a < root + 0x2000 + vmcsSize then 0 else Read(was, a)
  {
    hide Read;
  }

  lemma PageIsPositive()
    ensures PAGE > 0
  {
  }

  lemma NoSteps(pm: Pm, root: nat, actions: seq<Action>, mapped: set<nat>, tables: Tables)
    ensures Run(pm, root, actions, 0) == Cpu(pm, 0, [], false) && mapped == mapped + PageSet([])
    ensures WithPages(tables, pm.base, []) == (tables, pm.base)
  {
  }

  lemma OneStep(pm: Pm, root: nat, actions: seq<Action>, n: nat)
    ensures Run(pm, root, actions, n + 1) == Step(root, actions, Run(pm, root, actions, n))
  {
  }

  class Hypervisor {
    var mem: Memory
    var mBase: nat
    var gRootPa: nat
    ghost var tables: Tables
    ghost var pages: Pages

    ghost predicate Valid()
      reads this
    {
      && gRootPa % PAGE == 0 && 0 < gRootPa
      && IdentityTree(Pm(mem, mBase), gRootPa / PAGE, tables, pages)
      && Room(tables, mBase)
    }

    method InitPmm(base: nat)
      modifies this`mBase
      ensures mBase == PAGE * FrameUp(base) && IsLeastMultiple(mBase, base, PAGE)
      ensures forall other: nat :: other % PAGE == 0 && base <= other ==> mBase <= other
    {
      hide AlignUp, IsLeastMultiple;
      mBase := AlignUp(base, 4096);
      AlignUpToFrame(base);
      PowersInUse();
      AlignUpIsLeastMultiple(base, PAGE, 12);
      forall other: nat | other % PAGE == 0 && base <= other
        ensures mBase <= other
      {
        LeastMultipleIsLeast(mBase, base, PAGE, other);
      }
    }

    method PallocAligned(size: nat, align: nat) returns (res: nat)
      requires align > 0
      modifies this`mBase
      ensures res == AlignUp(old(mBase), align) && mBase == res + size
      ensures IsPow2(align) ==> IsLeastMultiple(res, old(mBase), align)
    {
      AlignUpCorrectIffPow2(align);
      mBase := AlignUp(mBase, align);
      res := mBase;
      mBase := mBase + size;
    }

    method PalloczAligned(size: nat, align: nat) returns (res: nat)
      requires align > 0
      modifies this`mBase, this`mem
      ensures res == AlignUp(old(mBase), align) && mBase == res + size
      ensures IsPow2(align) ==> IsLeastMultiple(res, old(mBase), align)
      ensures mem == ZeroRange(old(mem), res, size)
      ensures forall a: nat :: Read(mem, a) == if res <= a < res + size then 0 else Read(old(mem), a)
    {
      res := PallocAligned(size, align);
      mem := ZeroRange(mem, res, size);
    }

    /** An allocation next to the guest's tables: with room left it leaves them alone and is no part of them. */
    method AllocateRegion(size: nat, align: nat) returns (res: nat)
      requires Valid() && align > 0 && Room(tables, AlignUp(mBase, align) + size)
      modifies this`mBase, this`mem
      ensures Valid() && forall a: nat :: res <= a ==> OutsideTables(tables, a)
      ensures res == AlignUp(old(mBase), align) && mBase == res + size
      ensures forall a: nat :: Read(mem, a) == if res <= a < res + size then 0 else Read(old(mem), a)
    {
      AlignUpNotBelow(mBase, align);
      hide AlignUp, IdentityTree, Room, OutsideTables, IsLeastMultiple, IsPow2;
      AllocationKeepsIdentity(Pm(mem, mBase), gRootPa / PAGE, tables, pages, size, align);
      TablesBelow(Pm(mem, mBase), gRootPa / PAGE, tables, pages);
      ghost var after := Palloc(Pm(mem, mBase), size, align);
      res := PalloczAligned(size, align);
      assert Pm(mem, mBase) == after;
      hide Palloc, ZeroRange;
    }

    /** A zeroed region of its own that starts with the revision number. */
    method RevisedRegion(size: nat, revision: Word) returns (region: nat)
      requires Valid() && mBase % PAGE == 0 && Room(tables, mBase + size)
      modifies this`mBase, this`mem
      ensures Valid() && region == old(mBase) && mBase == region + size
      ensures RevisedAt(old(mem), mem, region, size, revision)
    {
      AlignedStays(mBase);
      hide Valid, AlignUp, Room, OutsideTables;
      region := AllocateRegion(size, 0x1000);
      assert ZeroedAt(old(mem), mem, region, size);
      hide ZeroedAt, RevisedAt, Read;
      ZeroedThenRevised(old(mem), mem, region, size, revision);
      StoreRevision(region, revision);
    }

    /** What runs before the launch: the allocator, the root, and the regions of vmxon and of the VMCS. */
    method Start(virtdbgEnd: nat, vmcsSize: nat, revision: Word) returns (err: Err)
      requires FrameUp(PAGE * (FrameUp(virtdbgEnd) + 2) + vmcsSize) + MAX_TABLES <= FRAMES
      modifies this
      ensures err == OutOfResources <==> FrameUp(virtdbgEnd) == 0
      ensures err == NoError ==> Valid() && pages == map[]
      ensures
        var root := PAGE * FrameUp(virtdbgEnd);
        err == NoError ==>
          && gRootPa == root && mBase == root + 0x2000 + vmcsSize
          && forall a: nat :: Read(mem, a) == if a == root + 0x1000 || a == root + 0x2000 then revision
               else if root <= a < mBase then 0 else Read(old(mem), a)
    {
      hide AlignUp, IdentityTree, IsLeastMultiple, ZeroedAt, RevisedAt;
      ghost var root, was := PAGE * FrameUp(virtdbgEnd), mem;
      StartBase(FrameUp(virtdbgEnd));
      InitPmm(virtdbgEnd);
      err := InitEpt();
      if err != NoError {
        return;
      }
      StartRoom(FrameUp(virtdbgEnd), vmcsSize, tables);
      hide Valid, Room, FrameUp, Read, Init;
      ghost var m1 := mem;
      var vmxonRegion := RevisedRegion(0x1000, revision);
      ghost var m2 := mem;
      var region := RevisedRegion(vmcsSize, revision);
      StartWords(was, m1, m2, mem, root, vmcsSize, revision);
    }

    /** The revision number at the start of a region. */
    method StoreRevision(region: nat, revision: Word)
      requires Valid() && OutsideTables(tables, region)
      modifies this`mem
      ensures Valid() && mem == old(mem)[region := revision]
    {
      StoreKeepsIdentity(Pm(mem, mBase), gRootPa / PAGE, tables, pages, region, revision);
      mem := mem[region := revision];
    }

    method InitEpt() returns (err: Err)
      requires RoomForAll(Pm(mem, mBase))
      modifies this
      ensures (Pm(mem, mBase), gRootPa / PAGE) == Init(old(Pm(mem, mBase)))
      ensures gRootPa == PAGE * FrameUp(old(mBase)) && mBase == gRootPa + PAGE
      ensures ZeroedAt(old(mem), mem, gRootPa, PAGE)
      ensures err == OutOfResources <==> FrameUp(old(mBase)) == 0
      ensures err == NoError ==> Valid() && tables == map[ROOT := gRootPa / PAGE] && pages == map[]
    {
      hide AlignUp, IdentityTree, Room, IsLeastMultiple;
      err := NoError;
      AlignUpToFrame(mBase);
      InitIsEmptyTree(Pm(mem, mBase));
      gRootPa := PalloczAligned(4096, 0x1000);
      tables, pages := map[ROOT := gRootPa / PAGE], map[];
      if gRootPa == 0 {
        err := OutOfResources;
      }
    }

    /** The four bitfield stores that link a table. */
    method StoreLink(slot: nat, alloc: nat)
      requires Get(mem, slot) == ZERO_ENTRY && alloc % PAGE == 0 && alloc / PAGE < FRAMES
      modifies this`mem
      ensures mem == old(mem)[slot := LinkWord(alloc / PAGE)]
    {
      hide Get, Put;
      RwxStored(mem, slot, alloc / PAGE);
      ghost var e1 := ZERO_ENTRY.(frame := alloc / PAGE);
      ghost var e2 := e1.(r := 1);
      ghost var e3 := e2.(w := 1);
      GetPut(mem, slot, e1);
      GetPut(mem, slot, e2);
      GetPut(mem, slot, e3);
      PutPut(mem, slot, e1, e2);
      PutPut(mem, slot, e2, e3);
      PutPut(mem, slot, e3, Rwx(alloc / PAGE, 0));
      mem := Put(mem, slot, Get(mem, slot).(frame := alloc / 0x1000));
      mem := Put(mem, slot, Get(mem, slot).(r := 1));
      mem := Put(mem, slot, Get(mem, slot).(w := 1));
      mem := Put(mem, slot, Get(mem, slot).(x := 1));
    }

    /** The five bitfield stores that map a page, over an empty entry or the same leaf. */
    method StoreLeaf(slot: nat, address: Gpa)
      requires Get(mem, slot) == ZERO_ENTRY || Get(mem, slot) == Rwx(address / PAGE, EPT_WB)
      modifies this`mem
      ensures mem == old(mem)[slot := EptLeaf(address / PAGE)]
    {
      hide Get, Put;
      RwxStored(mem, slot, address / PAGE);
      ghost var e0 := Get(mem, slot);
      ghost var e1 := e0.(frame := address / PAGE);
      ghost var e2 := e1.(r := 1);
      ghost var e3 := e2.(w := 1);
      ghost var e4 := e3.(x := 1);
      GetPut(mem, slot, e1);
      GetPut(mem, slot, e2);
      GetPut(mem, slot, e3);
      GetPut(mem, slot, e4);
      PutPut(mem, slot, e1, e2);
      PutPut(mem, slot, e2, e3);
      PutPut(mem, slot, e3, e4);
      PutPut(mem, slot, e4, Rwx(address / PAGE, EPT_WB));
      mem := Put(mem, slot, Get(mem, slot).(frame := address / 0x1000));
      mem := Put(mem, slot, Get(mem, slot).(r := 1));
      mem := Put(mem, slot, Get(mem, slot).(w := 1));
      mem := Put(mem, slot, Get(mem, slot).(x := 1));
      mem := Put(mem, slot, Get(mem, slot).(memType := EPT_WB));
    }

    /** One level of the loop in ept_map. */
    method NextLevel(cur: nat, address: Gpa, i: nat) returns (next: nat, err: Err)
      requires Valid() && 2 <= i <= 4
      requires KeyOf(address / PAGE, i - 1) in tables && cur == PAGE * tables[KeyOf(address / PAGE, i - 1)]
      modifies this`mem, this`mBase, this`tables
      ensures Valid()
      ensures tables == WithTable(old(tables), old(mBase), KeyOf(address / PAGE, i - 2))
      ensures mBase == BaseWith(old(tables), old(mBase), KeyOf(address / PAGE, i - 2))
      ensures KeyOf(address / PAGE, i - 2) in tables && next == PAGE * tables[KeyOf(address / PAGE, i - 2)]
      ensures (Pm(mem, mBase), next / PAGE) == NextTable(old(Pm(mem, mBase)), cur / PAGE, Index(address / PAGE, i - 1))
      ensures err == NoError
    {
      hide Decode, Encode, And, Shr, LinkWord, IdentityTree, EptLeaf, Index, Room;
      ghost var page, k := address / PAGE, KeyOf(address / PAGE, i - 2);
      ghost var f := FrameUp(mBase);
      ShiftedAddress(address, i - 1);
      var slot := cur + 8 * And(Shr(address, 12 + 9 * (i - 1)), 0x1ff);
      LevelFacts(Pm(mem, mBase), gRootPa / PAGE, tables, pages, page, i - 1);
      err := NoError;
      if Get(mem, slot).r == 0 {
        AlignUpToFrame(mBase);
        var alloc := PalloczAligned(0x1000, 0x1000);
        err := if alloc == 0 then OutOfResources else NoError;
        StoreLink(slot, alloc);
        next := alloc;
      } else {
        next := PAGE * Get(mem, slot).frame;
      }
      tables := WithTable(tables, old(mBase), k);
    }

    /** Maps one page of the guest to itself; with room it cannot fail, as the root lies below every other table. */
    method EptMap(address: Gpa) returns (err: Err)
      requires Valid()
      modifies this`mem, this`mBase, this`tables, this`pages
      ensures Valid()
      ensures pages == old(pages)[address / PAGE := EptLeaf(address / PAGE)]
      ensures (tables, mBase) == Grown(old(tables), old(mBase), address / PAGE, 3)
      ensures Pm(mem, mBase) == MapLeaf(old(Pm(mem, mBase)), gRootPa / PAGE, address / PAGE, EptLeaf(address / PAGE))
      ensures err == NoError
    {
      hide Decode, And, Shr, LinkWord, EptLeaf, IdentityTree, NextTable, WithTable, BaseWith, Room, EptWalk;
      ghost var page, root := address / PAGE, gRootPa / PAGE;
      var pteIdx := And(Shr(address, 12), 0x1ff);
      ShiftedAddress(address, 0);
      PrefixBound(page, 3);
      assert KeyOf(page, 3) == ROOT;
      RootFrame(Pm(mem, mBase), root, tables, pages);
      var cur := gRootPa;
      var i := 4;
      err := NoError;
      while i > 1 && err == NoError
        invariant 1 <= i <= 4 && err == NoError
        invariant Valid() && pages == old(pages)
        invariant KeyOf(page, i - 1) in tables && cur == PAGE * tables[KeyOf(page, i - 1)]
        invariant Grown(tables, mBase, page, i - 1) == Grown(old(tables), old(mBase), page, 3)
        invariant Descend(Pm(mem, mBase), cur / PAGE, page, i - 1) == Descend(old(Pm(mem, mBase)), root, page, 3)
      {
        cur, err := NextLevel(cur, address, i);
        i := i - 1;
      }
      LeafFacts(Pm(mem, mBase), root, tables, pages, page);
      MapKeepsIdentity(old(Pm(mem, mBase)), root, old(tables), pages, page);
      StoreLeaf(cur + 8 * pteIdx, address);
      pages := pages[page := EptLeaf(page)];
    }

    /** One round of exit_handler, up to its vm_resume. */
    method HandleExit(e: VmExit) returns (resumes: bool)
      requires Valid()
      modifies this`mem, this`mBase, this`tables, this`pages
      ensures Valid()
      ensures (Pm(mem, mBase), resumes) == Handle(old(Pm(mem, mBase)), gRootPa / PAGE, e)
      ensures
        pages == if e.reason == VMEXIT_EPT_VIOLATION then old(pages)[e.address / PAGE := EptLeaf(e.address / PAGE)]
                 else old(pages)
      ensures
        (tables, mBase) == if e.reason == VMEXIT_EPT_VIOLATION then Grown(old(tables), old(mBase), e.address / PAGE, 3)
                           else (old(tables), old(mBase))
      ensures resumes <==> !e.entryFailed && e.reason in {0, 12, 48}
      ensures e.reason != 48 ==> mem == old(mem) && mBase == old(mBase) && pages == old(pages) && tables == old(tables)
      ensures e.reason == 48 ==> e.address / PAGE in pages
    {
      hide EptLeaf, IdentityTree, Room, MapLeaf, Grown, AndNot;
      resumes := true;
      if e.reason == VMEXIT_EPT_VIOLATION {
        FaultingPage(e.address);
        var _ := EptMap(AndNot(e.address, 0x1000 - 1));
      } else if e.reason == VMEXIT_HLT || e.reason == VMEXIT_EXCEPTION_NMI {
        // trace or halt the host until the next interrupt
      } else {
        resumes := false;
      }
      if e.entryFailed {
        resumes := false;
      }
    }

    lemma IsReady()
      requires Valid()
      ensures Ready(Pm(mem, mBase), gRootPa / PAGE, tables, pages) && PAGE * (gRootPa / PAGE) == gRootPa
    {
    }

    /** A guest access that reached its address: nothing happens to a table the guest does not store to. */
    method Touch(action: Action, address: nat)
      requires Valid() && (action.Write? ==> OutsideTables(tables, address))
      requires action.Touches()
      modifies this`mem
      ensures Valid() && Pm(mem, mBase) == Touched(old(Pm(mem, mBase)), action, address)
    {
      if action.Write? {
        StoreKeepsIdentity(Pm(mem, mBase), gRootPa / PAGE, tables, pages, address, action.value);
        mem := mem[address := action.value];
      }
    }

    /** The guest up to its next exit or past its next access, and one round of the handler. */
    method ServeNext(actions: seq<Action>, at: nat, faults: seq<nat>, ghost mapped: set<nat>)
        returns (at': nat, faults': seq<nat>, resumes: bool)
      requires Valid() && at < |actions| && pages.Keys == mapped + PageSet(faults)
      requires actions[at].Write? && actions[at].address / PAGE in pages ==> OutsideTables(tables, actions[at].address)
      modifies this`mem, this`mBase, this`tables, this`pages
      ensures Valid()
      ensures Cpu(Pm(mem, mBase), at', faults', !resumes)
              == Step(gRootPa / PAGE, actions, Cpu(old(Pm(mem, mBase)), at, faults, false))
      ensures pages.Keys == mapped + PageSet(faults')
      ensures faults' == faults || (actions[at].Touches() && faults' == faults + [PageOfAction(actions[at])])
      ensures
        (tables, mBase) == if faults' == faults then (old(tables), old(mBase))
                           else Grown(old(tables), old(mBase), PageOfAction(actions[at]), 3)
      ensures actions[at].Hlt? ==> resumes && at' == at && mem == old(mem)
    {
      hide EptLeaf, IdentityTree, Room, MapLeaf, Grown, AndNot, EptWalk, Eptp, Translate, OutsideTables, Touched,
        Handle;
      at', faults', resumes := at, faults, true;
      if actions[at].Nmi? {
        resumes := HandleExit(VmExit(VMEXIT_EXCEPTION_NMI, false, 0));
        at' := at + 1;
      } else if actions[at].Hlt? {
        resumes := HandleExit(VmExit(VMEXIT_HLT, false, 0));
      } else {
        var address := actions[at].address;
        ReachIsIdentity(Pm(mem, mBase), gRootPa / PAGE, tables, pages, actions[at]);
        match Reach(mem, gRootPa / PAGE, actions[at]) {
          case Translated(a, _, _, _) =>
            Touch(actions[at], a);
            at' := at + 1;
          case Violation =>
            resumes := HandleExit(VmExit(VMEXIT_EPT_VIOLATION, false, address));
            faults' := faults + [address / PAGE];
            assert PageSet(faults') == PageSet(faults) + {address / PAGE};
          case _ =>
            assert false;
        }
      }
    }

    /** The loop of exit_handler, with the processor running the guest between rounds, up to its first HLT. */
    method ServeGuest(actions: seq<Action>) returns (faults: seq<nat>)
      requires Valid() && SparesTables(tables, mBase, pages.Keys, actions)
      modifies this`mem, this`mBase, this`tables, this`pages
      ensures Valid() && faults == FirstTouches(Program(actions), old(pages).Keys)
      ensures pages.Keys == old(pages).Keys + PageSet(faults)
      ensures (tables, mBase) == WithPages(old(tables), old(mBase), faults)
      ensures SameOutside(tables, Stored(old(mem), Program(actions)), mem)
      ensures forall i :: 0 <= i < HltAt(actions) && actions[i].Touches() ==>
                Translate(mem, Eptp(gRootPa), actions[i].address) == Translated(actions[i].address, EPT_WB, true, true)
    {
      hide *;
      PageIsPositive();
      IsReady();
      NoSteps(Pm(mem, mBase), gRootPa / PAGE, actions, pages.Keys, tables);
      ghost var start, root, tables0, pages0, n := Pm(mem, mBase), gRootPa / PAGE, tables, pages, 0;
      faults := [];
      var at, resumes := 0, true;
      while at < |actions| && !actions[at].Hlt?
        invariant Valid() && resumes && at <= HltAt(actions)
        invariant Run(start, root, actions, n) == Cpu(Pm(mem, mBase), at, faults, false)
        invariant pages.Keys == pages0.Keys + PageSet(faults)
        invariant (tables, mBase) == WithPages(tables0, start.base, faults)
        decreases |actions| - at, PAGES - |pages0| - |faults|
      {
        UnmappedDecreases(start, root, tables0, pages0, actions, n);
        MappedIsFaulted(start, root, tables0, pages0, actions, n + 1);
        StoreIsOutside(start, root, tables0, pages0, actions, n);
        WithPage(tables0, start.base, faults, PageOfAction(actions[at]));
        OneStep(start, root, actions, n);
        PageOfTouch(actions[at]);
        n := n + 1;
        at, faults, resumes := ServeNext(actions, at, faults, pages0.Keys);
      }
      FinishedIsServed(start, root, tables0, pages0, actions, n);
      WhatIsServed(Run(start, root, actions, n), start, root, tables0, pages0.Keys, actions);
    }
  }
}
