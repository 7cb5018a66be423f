/**
 The guest and the exit handler together: a guest access either translates or leaves through an
 EPT violation, the handler maps the page, and the guest repeats the access.
 */
module DemandPaging {
  import opened Bits
  import opened RadixTree
  import opened Ept

  const VMEXIT_EXCEPTION_NMI := 0
  const VMEXIT_HLT := 12
  const VMEXIT_EPT_VIOLATION := 48
  const VMEXIT_EPT_MISCONFIG := 49

  /** What the VMCS says about an exit. */
  datatype VmExit = VmExit(reason: nat, entryFailed: bool, address: Gpa)

  /** One round of exit_handler up to vm_resume: memory afterwards, and whether it resumes. */
  function Handle(pm: Pm, root: nat, e: VmExit): (Pm, bool) {
    if e.reason == VMEXIT_EPT_VIOLATION then
      var page := AndNot(e.address, 0x1000 - 1) / PAGE;
      (MapLeaf(pm, root, page, EptLeaf(page)), !e.entryFailed)
    else if e.reason == VMEXIT_HLT || e.reason == VMEXIT_EXCEPTION_NMI then (pm, !e.entryFailed)
    else (pm, false)
  }

  /** The guest is resumed after an NMI, a HLT or a violation, and only a violation changes anything. */
  lemma HandleIs(pm: Pm, root: nat, e: VmExit)
    ensures
      var (pm', resumes) := Handle(pm, root, e);
      && (resumes <==> !e.entryFailed && e.reason in {0, 12, 48})
      && pm' == if e.reason == 48 then MapLeaf(pm, root, e.address / PAGE, EptLeaf(e.address / PAGE)) else pm
  {
    FaultingPage(e.address);
    hide AndNot, MapLeaf, EptLeaf;
  }

  lemma FaultingPage(address: Gpa)
    ensures AndNot(address, 0x1000 - 1) == PAGE * (address / PAGE)
  {
    PowersInUse();
    AndNotLowMask(address, 12);
  }

  /** What the guest does next: load from memory, store to it, be interrupted by an NMI, or halt. */
  datatype Action = Access(address: Gpa) | Write(address: Gpa, value: Word) | Nmi | Hlt {
    predicate Touches() { Access? || Write? }
  }

  /** The first HLT of a program, or its end: rip is not moved past a HLT, so the guest gets no further. */
  function HltAt(actions: seq<Action>): (n: nat)
    ensures n <= |actions| && (n < |actions| ==> actions[n].Hlt?) && forall k :: 0 <= k < n ==> !actions[k].Hlt?
  {
    if actions == [] || actions[0].Hlt? then 0 else 1 + HltAt(actions[1..])
  }

  /** The guest at its next action, and the pages that have faulted, oldest first. */
  datatype Cpu = Cpu(pm: Pm, at: nat, faults: seq<nat>, stopped: bool)

  /** What the processor makes of an access; a store also needs a writable page. */
  function Reach(mem: Memory, root: nat, action: Action): EptResult
    requires action.Touches()
  {
    match Translate(mem, Eptp(PAGE * root), action.address)
    case Translated(a, t, w, x) => if action.Write? && !w then Violation else Translated(a, t, w, x)
    case other => other
  }

  /** Memory after an access that reached an address. */
  function Touched(pm: Pm, action: Action, address: nat): Pm {
    if action.Write? then pm.(mem := pm.mem[address := action.value]) else pm
  }

  /** Runs the guest to its next exit or past its next access, and handles the exit. */
  function Step(root: nat, actions: seq<Action>, c: Cpu): Cpu {
    if c.stopped || c.at >= |actions| then c
    else if actions[c.at].Nmi? then
      var (pm, resumes) := Handle(c.pm, root, VmExit(VMEXIT_EXCEPTION_NMI, false, 0));
      Cpu(pm, c.at + 1, c.faults, !resumes)
    else if actions[c.at].Hlt? then
      var (pm, resumes) := Handle(c.pm, root, VmExit(VMEXIT_HLT, false, 0));
      Cpu(pm, c.at, c.faults, !resumes)
    else
      var address := actions[c.at].address;
      match Reach(c.pm.mem, root, actions[c.at])
      case Translated(a, _, _, _) => Cpu(Touched(c.pm, actions[c.at], a), c.at + 1, c.faults, false)
      case Violation =>
        var (pm, resumes) := Handle(c.pm, root, VmExit(VMEXIT_EPT_VIOLATION, false, address));
        Cpu(pm, c.at, c.faults + [address / PAGE], !resumes)
      case Misconfigured =>
        var (pm, resumes) := Handle(c.pm, root, VmExit(VMEXIT_EPT_MISCONFIG, false, address));
        Cpu(pm, c.at, c.faults, !resumes)
      case LargePage => c.(at := c.at + 1)
  }

  /** The state n steps after the guest starts. */
  function Run(pm: Pm, root: nat, actions: seq<Action>, n: nat): Cpu {
    if n == 0 then Cpu(pm, 0, [], false) else Step(root, actions, Run(pm, root, actions, n - 1))
  }

  /** The memory and the allocator a guest can start from, whatever was allocated or mapped before. */
  ghost predicate Ready(pm: Pm, root: nat, tables: Tables, pages: Pages) {
    IdentityTree(pm, root, tables, pages) && Room(tables, pm.base)
  }

  /** The distinct pages a program touches that are not mapped already, in the order it first touches them. */
  function FirstTouches(actions: seq<Action>, mapped: set<nat>): seq<nat> {
    if actions == [] then []
    else
      var n := |actions| - 1;
      var before := FirstTouches(actions[..n], mapped);
      if !actions[n].Touches() || actions[n].address / PAGE in before || actions[n].address / PAGE in mapped then before
      else before + [actions[n].address / PAGE]
  }

  /** The tables and the allocator after some pages have been mapped, one after the other. */
  function WithPages(tables: Tables, base: nat, pages: seq<nat>): (Tables, nat) {
    if pages == [] then (tables, base)
    else
      var (t, b) := WithPages(tables, base, pages[..|pages| - 1]);
      Grown(t, b, pages[|pages| - 1], 3)
  }

  /** No store goes to a table there is by then; the guest may store anywhere else. */
  ghost predicate SparesTables(tables: Tables, base: nat, mapped: set<nat>, actions: seq<Action>) {
    forall k :: 0 <= k < HltAt(actions) && actions[k].Write? ==>
      OutsideTables(WithPages(tables, base, FirstTouches(actions[..k + 1], mapped)).0, actions[k].address)
  }

  /** Flat memory after the stores of a program. */
  function Stored(mem: Memory, actions: seq<Action>): Memory {
    if actions == [] then mem
    else
      var n := |actions| - 1;
      var before := Stored(mem, actions[..n]);
      if actions[n].Write? then before[actions[n].address := actions[n].value] else before
  }

  function PageSet(pages: seq<nat>): set<nat> { set p | p in pages }

  ghost predicate Distinct(pages: seq<nat>) {
    forall i, j :: 0 <= i < j < |pages| ==> pages[i] != pages[j]
  }

  lemma {:induction false} TouchesDistinct(actions: seq<Action>, mapped: set<nat>)
    ensures Distinct(FirstTouches(actions, mapped))
    ensures forall i :: 0 <= i < |actions| && actions[i].Touches() ==>
              actions[i].address / PAGE in FirstTouches(actions, mapped) || actions[i].address / PAGE in mapped
    ensures forall p :: p in FirstTouches(actions, mapped) ==>
              p !in mapped && exists i :: 0 <= i < |actions| && actions[i].Touches() && p == actions[i].address / PAGE
  {
    if actions == [] {
    } else {
      var n := |actions| - 1;
      TouchesDistinct(actions[..n], mapped);
      forall p | p in FirstTouches(actions, mapped)
        ensures p !in mapped && exists i :: 0 <= i < |actions| && actions[i].Touches() && p == actions[i].address / PAGE
      {
        if p in FirstTouches(actions[..n], mapped) {
          var i :| 0 <= i < n && actions[..n][i].Touches() && p == actions[..n][i].address / PAGE;
          assert actions[i] == actions[..n][i];
        } else {
          assert actions[n].Touches() && p == actions[n].address / PAGE;
        }
      }
      forall i | 0 <= i < |actions| && actions[i].Touches()
        ensures actions[i].address / PAGE in FirstTouches(actions, mapped) || actions[i].address / PAGE in mapped
      {
        if i < n {
          assert actions[..n][i] == actions[i];
        }
      }
    }
  }

  lemma {:induction false} TouchesGrow(actions: seq<Action>, mapped: set<nat>, k: nat)
    requires k <= |actions|
    ensures FirstTouches(actions[..k], mapped) <= FirstTouches(actions, mapped)
  {
    if k == |actions| {
      assert actions[..k] == actions;
    } else {
      var n := |actions| - 1;
      TouchesGrow(actions[..n], mapped, k);
      assert actions[..n][..k] == actions[..k];
    }
  }

  /**
   Where a run stands after any number of steps: in a tree that maps what was mapped and what has
   faulted, with memory outside the tables as the guest's stores have left it.
   */
  ghost predicate Follows(c: Cpu, start: Pm, root: nat, tables: Tables, mapped: set<nat>, actions: seq<Action>, n: nat,
      pages: Pages) {
    var now := WithPages(tables, start.base, c.faults);
    && Ready(c.pm, root, now.0, pages) && c.pm.base == now.1
    && !c.stopped && c.at <= HltAt(actions)
    && SameOutside(now.0, Stored(start.mem, actions[..c.at]), c.pm.mem)
    && (c.at == HltAt(actions) || c.at + |c.faults| == n)
    && pages.Keys == mapped + PageSet(c.faults)
    && (c.faults == FirstTouches(actions[..c.at], mapped)
        || (c.at < HltAt(actions) && c.faults == FirstTouches(actions[..c.at + 1], mapped)))
  }

  /** One more page, one more fault. */
  lemma WithPage(tables: Tables, base: nat, pages: seq<nat>, page: nat)
    ensures
      var now := WithPages(tables, base, pages);
      WithPages(tables, base, pages + [page]) == Grown(now.0, now.1, page, 3)
    ensures PageSet(pages + [page]) == PageSet(pages) + {page}
  {
    assert (pages + [page])[..|pages|] == pages;
  }

  /** What a mapped access does, and what an unmapped one. */
  lemma ReachIsIdentity(pm: Pm, root: nat, tables: Tables, pages: Pages, action: Action)
    requires IdentityTree(pm, root, tables, pages) && action.Touches()
    ensures
      Reach(pm.mem, root, action)
      == if action.address / PAGE in pages then Translated(action.address, EPT_WB, true, true) else Violation
  {
    hide EptWalk, Eptp, Translate, IdentityTree;
    TranslateIsIdentity(pm, root, tables, pages, action.address);
  }

  lemma TouchKeepsRest(pm: Pm, root: nat, tables: Tables, pages: Pages, action: Action, mem: Memory)
    requires Ready(pm, root, tables, pages) && action.Touches() && SameOutside(tables, mem, pm.mem)
    requires action.Write? ==> OutsideTables(tables, action.address)
    ensures
      var pm' := Touched(pm, action, action.address);
      && Ready(pm', root, tables, pages) && pm'.base == pm.base
      && SameOutside(tables, if action.Write? then mem[action.address := action.value] else mem, pm'.mem)
  {
    hide IdentityTree, Room, OutsideTables;
    if action.Write? {
      StoreKeepsIdentity(pm, root, tables, pages, action.address, action.value);
    }
  }

  lemma FaultKeepsRest(pm: Pm, root: nat, tables: Tables, pages: Pages, address: Gpa, mem: Memory)
    requires Ready(pm, root, tables, pages) && SameOutside(tables, mem, pm.mem)
    ensures
      var page := address / PAGE;
      var (pm', resumes) := Handle(pm, root, VmExit(VMEXIT_EPT_VIOLATION, false, address));
      var (tables', base') := Grown(tables, pm.base, page, 3);
      && resumes && Ready(pm', root, tables', pages[page := EptLeaf(page)]) && pm'.base == base'
      && SameOutside(tables', mem, pm'.mem)
  {
    hide Tree, Room, EptLeaf, Grown, MapLeaf, SameOutside, AndNot;
    var page := address / PAGE;
    FaultingPage(address);
    MapKeepsIdentity(pm, root, tables, pages, page);
    InsertionWritesTables(pm, root, tables, pages, page, EptLeaf(page));
    OutsideOneByOne(tables, pm.base, page, 3, mem, pm.mem, MapLeaf(pm, root, page, EptLeaf(page)).mem);
  }

  /** How a program's account changes with one action. */
  lemma NextAction(mem: Memory, actions: seq<Action>, at: nat, mapped: set<nat>)
    requires at < |actions|
    ensures
      var action, before := actions[at], FirstTouches(actions[..at], mapped);
      && Stored(mem, actions[..at + 1])
         == (if action.Write? then Stored(mem, actions[..at])[action.address := action.value]
             else Stored(mem, actions[..at]))
      && FirstTouches(actions[..at + 1], mapped)
         == if !action.Touches() || action.address / PAGE in before || action.address / PAGE in mapped then before
            else before + [action.address / PAGE]
  {
    assert actions[..at + 1][..at] == actions[..at];
  }

  /** The three ways a step goes on: past an NMI, past an access, or to a fault. */
  lemma StepCases(c: Cpu, root: nat, actions: seq<Action>, tables: Tables, pages: Pages)
    requires Ready(c.pm, root, tables, pages) && !c.stopped && c.at < HltAt(actions)
    ensures
      var action, c' := actions[c.at], Step(root, actions, c);
      if action.Nmi? then c' == c.(at := c.at + 1)
      else if action.address / PAGE in pages then
        c' == Cpu(Touched(c.pm, action, action.address), c.at + 1, c.faults, false)
      else
        var (pm, resumes) := Handle(c.pm, root, VmExit(VMEXIT_EPT_VIOLATION, false, action.address));
        c' == Cpu(pm, c.at, c.faults + [action.address / PAGE], !resumes)
  {
    hide Reach, IdentityTree, Room, MapLeaf, AndNot, EptLeaf;
    if actions[c.at].Touches() {
      ReachIsIdentity(c.pm, root, tables, pages, actions[c.at]);
    }
  }

  /** Whether an access faults is whether its page is new. */
  lemma NewIffUnmapped(c: Cpu, start: Pm, root: nat, tables: Tables, mapped: set<nat>, actions: seq<Action>, n: nat,
      pages: Pages)
    requires Follows(c, start, root, tables, mapped, actions, n, pages) && c.at < |actions| && actions[c.at].Touches()
    requires c.at < HltAt(actions)
    ensures
      var page := actions[c.at].address / PAGE;
      if page in pages then c.faults == FirstTouches(actions[..c.at + 1], mapped)
      else page !in c.faults && c.faults + [page] == FirstTouches(actions[..c.at + 1], mapped)
  {
    hide Ready, WithPages, SameOutside, FirstTouches;
    var page := actions[c.at].address / PAGE;
    NextAction(start.mem, actions, c.at, mapped);
    assert page in pages <==> page in mapped + PageSet(c.faults);
  }

  lemma StepFollows(c: Cpu, start: Pm, root: nat, tables: Tables, mapped: set<nat>, actions: seq<Action>, n: nat,
      pages: Pages) returns (pages': Pages)
    requires Follows(c, start, root, tables, mapped, actions, n, pages)
    requires SparesTables(tables, start.base, mapped, actions)
    ensures Follows(Step(root, actions, c), start, root, tables, mapped, actions, n + 1, pages')
  {
    hide Ready, WithPages, SameOutside, FirstTouches, Stored, Grown, Touched, Handle, EptLeaf, Step, PageSet,
      OutsideTables;
    pages' := pages;
    var (now, base) := WithPages(tables, start.base, c.faults);
    if c.at == HltAt(actions) {
      AtEnd(c, root, actions);
    } else {
      var action := actions[c.at];
      assert !action.Hlt?;
      StepCases(c, root, actions, now, pages);
      NextAction(start.mem, actions, c.at, mapped);
      if action.Touches() {
        var page := action.address / PAGE;
        NewIffUnmapped(c, start, root, tables, mapped, actions, n, pages);
        if page in pages {
          TouchKeepsRest(c.pm, root, now, pages, action, Stored(start.mem, actions[..c.at]));
        } else {
          FaultKeepsRest(c.pm, root, now, pages, action.address, Stored(start.mem, actions[..c.at]));
          WithPage(tables, start.base, c.faults, page);
          pages' := pages[page := EptLeaf(page)];
          assert pages'.Keys == pages.Keys + {page};
        }
      }
    }
  }

  /** Past its last action the guest does nothing more, and at a HLT it leaves and is resumed for ever. */
  lemma AtEnd(c: Cpu, root: nat, actions: seq<Action>)
    requires !c.stopped && c.at == HltAt(actions)
    ensures Step(root, actions, c) == c
  {
  }

  lemma StartFollows(pm: Pm, root: nat, tables: Tables, pages: Pages, actions: seq<Action>)
    requires Ready(pm, root, tables, pages)
    ensures Follows(Cpu(pm, 0, [], false), pm, root, tables, pages.Keys, actions, 0, pages)
  {
    hide Ready;
    assert actions[..0] == [];
    assert PageSet([]) == {} && pages.Keys + {} == pages.Keys;
  }

  lemma {:induction false} RunFollows(pm: Pm, root: nat, tables: Tables, pages: Pages, actions: seq<Action>, n: nat)
      returns (pages': Pages)
    requires Ready(pm, root, tables, pages) && SparesTables(tables, pm.base, pages.Keys, actions)
    ensures Follows(Run(pm, root, actions, n), pm, root, tables, pages.Keys, actions, n, pages')
    decreases n
  {
    hide Ready, Step, Follows, SparesTables;
    if n == 0 {
      pages' := pages;
      StartFollows(pm, root, tables, pages, actions);
    } else {
      pages' := RunFollows(pm, root, tables, pages, actions, n - 1);
      pages' := StepFollows(Run(pm, root, actions, n - 1), pm, root, tables, pages.Keys, actions, n - 1, pages');
    }
  }

  /**
   At every moment of every run the guest reaches what was mapped and the pages that have faulted, each once,
   and memory outside the tables is what its own stores have made of it.
   */
  lemma MappedIsFaulted(pm: Pm, root: nat, tables: Tables, pages: Pages, actions: seq<Action>, n: nat)
    requires Ready(pm, root, tables, pages) && SparesTables(tables, pm.base, pages.Keys, actions)
    ensures
      var c := Run(pm, root, actions, n);
      && !c.stopped && c.at <= HltAt(actions) && Distinct(c.faults) && (forall p :: p in c.faults ==> p !in pages)
      && SameOutside(WithPages(tables, pm.base, c.faults).0, Stored(pm.mem, actions[..c.at]), c.pm.mem)
      && forall gpa: Gpa ::
           Translate(c.pm.mem, Eptp(PAGE * root), gpa)
             == if gpa / PAGE in pages || gpa / PAGE in c.faults then Translated(gpa, EPT_WB, true, true) else Violation
  {
    hide EptWalk, Eptp, Translate, IdentityTree, Room, Run, SameOutside, WithPages, Stored, SparesTables;
    var pages' := RunFollows(pm, root, tables, pages, actions, n);
    var c := Run(pm, root, actions, n);
    TouchesDistinct(actions[..c.at], pages.Keys);
    if c.at < HltAt(actions) {
      TouchesDistinct(actions[..c.at + 1], pages.Keys);
    }
    forall gpa: Gpa
      ensures Translate(c.pm.mem, Eptp(PAGE * root), gpa)
        == if gpa / PAGE in pages || gpa / PAGE in c.faults then Translated(gpa, EPT_WB, true, true) else Violation
    {
      TranslateIsIdentity(c.pm, root, WithPages(tables, pm.base, c.faults).0, pages', gpa);
      assert gpa / PAGE in pages' <==> gpa / PAGE in pages.Keys + PageSet(c.faults);
    }
  }

  /** A store that does not fault leaves the tables there are by then alone. */
  lemma StoreIsOutside(pm: Pm, root: nat, tables: Tables, pages: Pages, actions: seq<Action>, n: nat)
    requires Ready(pm, root, tables, pages) && SparesTables(tables, pm.base, pages.Keys, actions)
    ensures
      var c := Run(pm, root, actions, n);
      c.at < HltAt(actions) && actions[c.at].Write?
        && actions[c.at].address / PAGE in pages.Keys + PageSet(c.faults) ==>
          OutsideTables(WithPages(tables, pm.base, c.faults).0, actions[c.at].address)
  {
    hide Ready, Step, OutsideTables, WithPages, SameOutside, FirstTouches, Run, Stored;
    var pages' := RunFollows(pm, root, tables, pages, actions, n);
    var c := Run(pm, root, actions, n);
    if c.at < HltAt(actions) && actions[c.at].Write? {
      NewIffUnmapped(c, pm, root, tables, pages.Keys, actions, n, pages');
    }
  }

  /** A step lets the guest go on, or adds one fault. */
  lemma StepProgress(c: Cpu, root: nat, actions: seq<Action>, tables: Tables, pages: Pages)
    requires Ready(c.pm, root, tables, pages) && !c.stopped && c.at <= HltAt(actions)
    ensures
      var c' := Step(root, actions, c);
      || (c'.faults == c.faults && (c.at < HltAt(actions) ==> c'.at == c.at + 1))
      || (c'.at == c.at && |c'.faults| == |c.faults| + 1)
  {
    hide Ready, Step, Handle, Touched;
    if c.at < HltAt(actions) {
      assert !actions[c.at].Hlt?;
      StepCases(c, root, actions, tables, pages);
    } else {
      AtEnd(c, root, actions);
    }
  }

  lemma FaultsFit(pm: Pm, root: nat, tables: Tables, pages: Pages, mapped: set<nat>, faults: seq<nat>)
    requires Ready(pm, root, tables, pages) && Distinct(faults)
    requires pages.Keys == mapped + PageSet(faults) && forall p :: p in faults ==> p !in mapped
    ensures |mapped| + |faults| <= PAGES
  {
    hide Room, EntriesOk, TablesOk;
    DistinctSize(faults);
    assert mapped !! PageSet(faults);
    DisjointSize(mapped, PageSet(faults));
    BoundedSetSize(pages.Keys, PAGES);
  }

  /** Each EPT violation leaves fewer of the 2^36 pages unmapped, so violations cannot go on. */
  lemma UnmappedDecreases(pm: Pm, root: nat, tables: Tables, pages: Pages, actions: seq<Action>, n: nat)
    requires Ready(pm, root, tables, pages) && SparesTables(tables, pm.base, pages.Keys, actions)
    ensures
      var c, c' := Run(pm, root, actions, n), Run(pm, root, actions, n + 1);
      || (c'.faults == c.faults && (c.at < HltAt(actions) ==> c'.at == c.at + 1))
      || (c'.at == c.at && 0 <= PAGES - |pages| - |c'.faults| < PAGES - |pages| - |c.faults|)
  {
    hide Ready, Step, Translate, Distinct, SparesTables, WithPages, SameOutside, Stored, FirstTouches;
    var c, c' := Run(pm, root, actions, n), Run(pm, root, actions, n + 1);
    var pages' := RunFollows(pm, root, tables, pages, actions, n);
    StepProgress(c, root, actions, WithPages(tables, pm.base, c.faults).0, pages');
    pages' := RunFollows(pm, root, tables, pages, actions, n + 1);
    MappedIsFaulted(pm, root, tables, pages, actions, n + 1);
    FaultsFit(c'.pm, root, WithPages(tables, pm.base, c'.faults).0, pages', pages.Keys, c'.faults);
    assert |pages| == |pages.Keys|;
  }

  lemma DisjointSize(a: set<nat>, b: set<nat>)
    requires a !! b
    ensures |a + b| == |a| + |b|
  {
  }

  lemma {:induction false} DistinctSize(pages: seq<nat>)
    requires Distinct(pages)
    ensures |PageSet(pages)| == |pages|
  {
    if pages == [] {
      assert PageSet(pages) == {};
    } else {
      var n := |pages| - 1;
      DistinctSize(pages[..n]);
      assert pages[n] !in PageSet(pages[..n]);
      assert PageSet(pages) == PageSet(pages[..n]) + {pages[n]} by {
        assert pages == pages[..n] + [pages[n]];
      }
    }
  }

  /** The part of a program that the guest gets through. */
  function Program(actions: seq<Action>): seq<Action> { actions[..HltAt(actions)] }

  /** What there is to say about a run that has come to the end, or to a HLT. */
  ghost predicate Served(c: Cpu, start: Pm, root: nat, tables: Tables, mapped: set<nat>, program: seq<Action>) {
    && !c.stopped && c.faults == FirstTouches(program, mapped)
    && SameOutside(WithPages(tables, start.base, c.faults).0, Stored(start.mem, program), c.pm.mem)
    && forall i :: 0 <= i < |program| && program[i].Touches() ==>
         Translate(c.pm.mem, Eptp(PAGE * root), program[i].address)
           == Translated(program[i].address, EPT_WB, true, true)
  }

  /** A run that has come so far has faulted as GuestIsServed says, and stays as it is, whenever that was. */
  lemma FinishedIsServed(pm: Pm, root: nat, tables: Tables, pages: Pages, actions: seq<Action>, n: nat)
    requires Ready(pm, root, tables, pages) && SparesTables(tables, pm.base, pages.Keys, actions)
    requires Run(pm, root, actions, n).at == HltAt(actions)
    ensures Served(Run(pm, root, actions, n), pm, root, tables, pages.Keys, Program(actions))
    ensures Run(pm, root, actions, n + 1) == Run(pm, root, actions, n)
  {
    var c, program := Run(pm, root, actions, n), Program(actions);
    var pages' := RunFollows(pm, root, tables, pages, actions, n);
    AtEnd(c, root, actions);
    hide EptWalk, Eptp, Translate, Ready, Run, SparesTables, SameOutside, WithPages, Stored;
    TouchesDistinct(program, pages.Keys);
    MappedIsFaulted(pm, root, tables, pages, actions, n);
  }

  /**
   Every program runs to its end, or to its first HLT, from every state a guest can start from: after one
   step for each action and one for each page it has to fault in, the pages that faulted are those it
   touches that were not mapped, in the order it first touches them, each access it made reaches its own
   address, and memory outside the tables is what its stores make of flat memory.
   */
  lemma GuestIsServed(pm: Pm, root: nat, tables: Tables, pages: Pages, actions: seq<Action>)
    requires Ready(pm, root, tables, pages) && SparesTables(tables, pm.base, pages.Keys, actions)
    ensures
      var program := Program(actions);
      var c := Run(pm, root, actions, |program| + |FirstTouches(program, pages.Keys)|);
      c.at == |program| && Served(c, pm, root, tables, pages.Keys, program)
  {
    hide EptWalk, Eptp, Translate, Ready, Run, SparesTables, SameOutside, WithPages, Stored, Served;
    var program := Program(actions);
    var n := |program| + |FirstTouches(program, pages.Keys)|;
    var c := Run(pm, root, actions, n);
    var pages' := RunFollows(pm, root, tables, pages, actions, n);
    if c.at < |program| {
      assert actions[..c.at] == program[..c.at] && actions[..c.at + 1] == program[..c.at + 1];
      TouchesGrow(program, pages.Keys, c.at);
      TouchesGrow(program, pages.Keys, c.at + 1);
      assert false;
    }
    FinishedIsServed(pm, root, tables, pages, actions, n);
  }

  /** A guest whose first instruction is a HLT: its page is faulted in, and then it leaves for ever. */
  lemma HaltingGuest(pm: Pm, root: nat, tables: Tables, pages: Pages, rip: Gpa, n: nat)
    requires Ready(pm, root, tables, pages) && rip / PAGE !in pages && n >= 2
    ensures
      var c := Run(pm, root, [Access(rip), Hlt], n);
      c.at == 1 && c.faults == [rip / PAGE] && !c.stopped
  {
    var actions := [Access(rip), Hlt];
    assert actions[1..] == [Hlt] && HltAt([Hlt]) == 0 && HltAt(actions) == 1;
    assert Program(actions) == [Access(rip)];
    assert FirstTouches([Access(rip)][..0], pages.Keys) == [];
    assert FirstTouches([Access(rip)], pages.Keys) == [rip / PAGE];
    HaltingGuestStays(pm, root, tables, pages, actions, n);
  }

  lemma {:induction false} HaltingGuestStays(pm: Pm, root: nat, tables: Tables, pages: Pages, actions: seq<Action>,
      n: nat)
    requires Ready(pm, root, tables, pages) && n >= 2 && |actions| == 2 && actions[0].Access? && actions[1].Hlt?
    requires HltAt(actions) == 1 && Program(actions) == [actions[0]]
    requires FirstTouches([actions[0]], pages.Keys) == [actions[0].address / PAGE]
    ensures
      var c := Run(pm, root, actions, n);
      c.at == 1 && c.faults == [actions[0].address / PAGE] && !c.stopped
  {
    hide Ready, Run, WithPages, SameOutside, Stored, FirstTouches, OutsideTables;
    if n == 2 {
      GuestIsServed(pm, root, tables, pages, actions);
    } else {
      HaltingGuestStays(pm, root, tables, pages, actions, n - 1);
      FinishedIsServed(pm, root, tables, pages, actions, n - 1);
    }
  }
}
