/**
 palloc_aligned run by N CPUs at once: every load and store of m_base is a step of its own, and
 only the ticket lock keeps the steps of different CPUs apart.
 */
module LockedAllocator {
  import opened Bits
  import opened TicketLock

  /** size bytes at a power-of-two alignment 1 << shift. */
  datatype Request = Request(size: nat, shift: nat)

  datatype Block = Block(address: nat, size: nat)

  /** How far a CPU has come through the body of palloc_aligned. */
  datatype Phase =
    | Want
    | Loaded(reg: nat)
    | Aligned
    | GotResult(res: nat)
    | Bumping(res: nat, reg: nat)
    | Done(res: nat)

  datatype Job = NoJob | Job(request: Request, phase: Phase)

  /** Shared and private state; requests in draw order, blocks in return order. */
  datatype State = State(lock: Lock, base: nat, jobs: seq<Job>, requests: seq<Request>, blocks: seq<Block>)

  function Begin(n: nat, base: nat): State {
    State(TicketLock.Start(n), base, seq(n, i => NoJob), [], [])
  }

  /** One step of a CPU; if it is idle it calls palloc_aligned with the given request. */
  datatype Turn = Turn(cpu: nat, request: Request)

  function Advance(s: State, m: nat, t: Turn): (r: State)
    requires m > 0 && |s.jobs| == |s.lock.pcs|
    ensures |r.jobs| == |r.lock.pcs| == |s.jobs|
  {
    var c := t.cpu;
    if c >= |s.jobs| then s
    else
      var lock' := Step(s.lock, m, c);
      match s.lock.pcs[c]
      case Idle => s.(lock := lock', jobs := s.jobs[c := Job(t.request, Want)], requests := s.requests + [t.request])
      case Waiting(_) => s.(lock := lock')
      case Inside(_) => Body(s, lock', c)
      case Leaving(_, _) =>
        match s.jobs[c]
        case Job(req, Done(res)) =>
          s.(lock := lock', jobs := s.jobs[c := NoJob], blocks := s.blocks + [Block(res, req.size)])
        case _ => s.(lock := lock', jobs := s.jobs[c := NoJob])
  }

  /** The statements between lock and unlock. */
  function Body(s: State, unlocking: Lock, c: nat): (r: State)
    requires c < |s.jobs| == |s.lock.pcs| == |unlocking.pcs|
    ensures |r.jobs| == |r.lock.pcs| == |s.jobs|
  {
    match s.jobs[c]
    case NoJob => s.(lock := unlocking)
    case Job(req, phase) =>
      match phase
      case Want => s.(jobs := s.jobs[c := Job(req, Loaded(s.base))])
      case Loaded(reg) => s.(base := AlignUp(reg, Pow2(req.shift)), jobs := s.jobs[c := Job(req, Aligned)])
      case Aligned => s.(jobs := s.jobs[c := Job(req, GotResult(s.base))])
      case GotResult(res) => s.(jobs := s.jobs[c := Job(req, Bumping(res, s.base))])
      case Bumping(res, reg) => s.(base := reg + req.size, jobs := s.jobs[c := Job(req, Done(res))])
      case Done(_) => s.(lock := unlocking)
  }

  function Run(n: nat, m: nat, base: nat, turns: seq<Turn>): (s: State)
    requires m > 0
    ensures |s.jobs| == |s.lock.pcs| == n
  {
    if turns == [] then Begin(n, base)
    else Advance(Run(n, m, base, turns[..|turns| - 1]), m, turns[|turns| - 1])
  }

  // ---------------------------------------------------------------------------------------
  // One CPU serving the same requests in order

  function SeqEnd(base: nat, requests: seq<Request>): nat {
    if requests == [] then base
    else
      var n := |requests| - 1;
      AlignUp(SeqEnd(base, requests[..n]), Pow2(requests[n].shift)) + requests[n].size
  }

  function SeqBlocks(base: nat, requests: seq<Request>): (blocks: seq<Block>)
    ensures |blocks| == |requests|
  {
    if requests == [] then []
    else
      var n := |requests| - 1;
      SeqBlocks(base, requests[..n])
      + [Block(AlignUp(SeqEnd(base, requests[..n]), Pow2(requests[n].shift)), requests[n].size)]
  }

  // ---------------------------------------------------------------------------------------
  // The invariant

  /** What the holder's progress says about m_base, where e is the end of the last returned block. */
  predicate PhaseOk(job: Job, base: nat, e: nat) {
    match job
    case NoJob => false
    case Job(req, phase) =>
      var up := AlignUp(e, Pow2(req.shift));
      match phase
      case Want => base == e
      case Loaded(reg) => base == e && reg == e
      case Aligned => base == up
      case GotResult(res) => base == up && res == up
      case Bumping(res, reg) => base == up && res == up && reg == up
      case Done(res) => base == up + req.size && res == up
  }

  ghost predicate JobsOk(s: State)
    requires |s.jobs| == |s.lock.pcs|
  {
    && |s.requests| == |s.lock.draws|
    && (forall j :: s.lock.releases <= j < |s.lock.draws| ==>
          s.lock.draws[j] < |s.jobs| && s.jobs[s.lock.draws[j]].Job?
              && s.jobs[s.lock.draws[j]].request == s.requests[j])
    && (forall c :: 0 <= c < |s.jobs| && s.lock.pcs[c].Waiting? ==> s.jobs[c].Job? && s.jobs[c].phase.Want?)
    && (forall c :: 0 <= c < |s.jobs| && s.lock.pcs[c].Leaving? ==> s.jobs[c].Job? && s.jobs[c].phase.Done?)
  }

  /** The blocks so far are those of the released requests, and m_base is where the head of the line has brought it. */
  ghost predicate MemoryOk(s: State, base: nat)
    requires |s.jobs| == |s.lock.pcs|
  {
    && |s.requests| == |s.lock.draws| && s.lock.releases <= |s.requests|
    && s.blocks == SeqBlocks(base, s.requests[..s.lock.releases])
    && var e := SeqEnd(base, s.requests[..s.lock.releases]);
       if s.lock.releases == |s.lock.draws| then s.base == e
       else s.lock.draws[s.lock.releases] < |s.jobs| && PhaseOk(s.jobs[s.lock.draws[s.lock.releases]], s.base, e)
  }

  ghost predicate Ok(s: State, m: nat, base: nat)
    requires m > 0 && |s.jobs| == |s.lock.pcs|
  {
    Inv(s.lock, m) && JobsOk(s) && MemoryOk(s, base)
  }

  /** What the lock's invariant says about the CPUs in line. */
  lemma InLineFacts(lock: Lock, m: nat)
    requires m > 0 && Inv(lock, m)
    ensures lock.releases <= |lock.draws|
    ensures forall j :: lock.releases <= j < |lock.draws| ==>
              lock.draws[j] < |lock.pcs| && !lock.pcs[lock.draws[j]].Idle?
    ensures forall j :: lock.releases < j < |lock.draws| ==> lock.pcs[lock.draws[j]].Waiting?
    ensures forall i, j :: lock.releases <= i < j < |lock.draws| ==> lock.draws[i] != lock.draws[j]
    ensures forall c: nat :: Holder(lock, c) ==> lock.releases < |lock.draws| && lock.draws[lock.releases] == c
  {
    hide TicketOf;
    var q := Queue(lock);
    forall j | lock.releases <= j < |lock.draws|
      ensures lock.draws[j] == q[j - lock.releases]
    {
    }
    forall c: nat | Holder(lock, c)
      ensures q != [] && c == q[0]
    {
      HolderIsHead(lock.pcs, lock.releases, m, q, c);
    }
  }

  /** The holder does one statement: m_base and its own progress change, no one else's. */
  lemma HolderWorks(s: State, m: nat, base: nat, c: nat, base': nat, phase': Phase)
    requires m > 0 && |s.jobs| == |s.lock.pcs| && Ok(s, m, base)
    requires c < |s.jobs| && s.lock.pcs[c].Inside? && s.jobs[c].Job?
    requires PhaseOk(Job(s.jobs[c].request, phase'), base', SeqEnd(base, s.requests[..s.lock.releases]))
    ensures Ok(s.(base := base', jobs := s.jobs[c := Job(s.jobs[c].request, phase')]), m, base)
  {
    InLineFacts(s.lock, m);
    hide Inv, PhaseOk, SeqEnd, SeqBlocks;
    assert Holder(s.lock, c);
  }

  lemma BodyKeepsOk(s: State, m: nat, base: nat, c: nat)
    requires 0 < |s.jobs| <= m && |s.jobs| == |s.lock.pcs| && Ok(s, m, base)
    requires c < |s.jobs| && s.lock.pcs[c].Inside?
    ensures Ok(Body(s, Step(s.lock, m, c), c), m, base)
  {
    InLineFacts(s.lock, m);
    hide TicketOf, Inv, AlignUp, Pow2, JobsOk;
    assert Holder(s.lock, c);
    HolderHasJob(s, m, base, c);
    var req := s.jobs[c].request;
    match s.jobs[c].phase {
      case Want => HolderWorks(s, m, base, c, s.base, Loaded(s.base));
      case Loaded(reg) => HolderWorks(s, m, base, c, AlignUp(reg, Pow2(req.shift)), Aligned);
      case Aligned => HolderWorks(s, m, base, c, s.base, GotResult(s.base));
      case GotResult(res) => HolderWorks(s, m, base, c, s.base, Bumping(res, s.base));
      case Bumping(res, reg) => HolderWorks(s, m, base, c, reg + req.size, Done(res));
      case Done(res) => HolderLeaves(s, m, base, c);
    }
  }

  lemma HolderHasJob(s: State, m: nat, base: nat, c: nat)
    requires m > 0 && |s.jobs| == |s.lock.pcs| && Ok(s, m, base) && Holder(s.lock, c)
    ensures s.lock.releases < |s.requests| && s.jobs[c].Job? && s.jobs[c].request == s.requests[s.lock.releases]
    ensures PhaseOk(s.jobs[c], s.base, SeqEnd(base, s.requests[..s.lock.releases]))
  {
    InLineFacts(s.lock, m);
  }

  lemma HolderLeaves(s: State, m: nat, base: nat, c: nat)
    requires 0 < |s.jobs| <= m && |s.jobs| == |s.lock.pcs| && Ok(s, m, base)
    requires c < |s.jobs| && s.lock.pcs[c].Inside? && s.jobs[c].Job? && s.jobs[c].phase.Done?
    ensures Ok(s.(lock := Step(s.lock, m, c)), m, base)
  {
    hide Inv, JobsOk, MemoryOk, Step;
    StepKeepsInv(s.lock, m, c);
    LeaveStep(s.lock, m, c);
    LeavesKeepsJobs(s, Step(s.lock, m, c), c);
    SameMemory(s, Step(s.lock, m, c), base);
  }

  lemma LeaveStep(lock: Lock, m: nat, c: nat)
    requires m > 0 && c < |lock.pcs| && lock.pcs[c].Inside?
    ensures
      var lock' := Step(lock, m, c);
      lock'.pcs == lock.pcs[c := lock'.pcs[c]] && lock'.pcs[c].Leaving? && lock'.draws == lock.draws
          && lock'.releases == lock.releases
  {
  }

  lemma SameMemory(s: State, lock': Lock, base: nat)
    requires |s.jobs| == |s.lock.pcs| == |lock'.pcs| && MemoryOk(s, base)
    requires lock'.draws == s.lock.draws && lock'.releases == s.lock.releases
    ensures MemoryOk(s.(lock := lock'), base)
  {
  }

  lemma LeavesKeepsJobs(s: State, lock': Lock, c: nat)
    requires |s.jobs| == |s.lock.pcs| && JobsOk(s) && c < |s.jobs| && s.jobs[c].Job? && s.jobs[c].phase.Done?
    requires |lock'.pcs| == |s.jobs| && lock'.pcs == s.lock.pcs[c := lock'.pcs[c]] && lock'.pcs[c].Leaving?
    requires lock'.draws == s.lock.draws && lock'.releases == s.lock.releases
    ensures JobsOk(s.(lock := lock'))
  {
  }

  /** A drawer joins the end of the line with its request. */
  lemma DrawKeepsJobs(s: State, lock': Lock, c: nat, req: Request)
    requires |s.jobs| == |s.lock.pcs| && JobsOk(s) && c < |s.jobs| && s.lock.pcs[c].Idle?
    requires forall j :: s.lock.releases <= j < |s.lock.draws| ==> s.lock.draws[j] != c
    requires |lock'.pcs| == |s.jobs| && lock'.pcs == s.lock.pcs[c := lock'.pcs[c]] && lock'.pcs[c].Waiting?
    requires lock'.draws == s.lock.draws + [c] && lock'.releases == s.lock.releases
    ensures JobsOk(s.(lock := lock', jobs := s.jobs[c := Job(req, Want)], requests := s.requests + [req]))
  {
  }

  lemma DrawStep(lock: Lock, m: nat, c: nat)
    requires m > 0 && c < |lock.pcs| && lock.pcs[c].Idle?
    ensures
      var lock' := Step(lock, m, c);
      && lock'.pcs == lock.pcs[c := lock'.pcs[c]] && lock'.pcs[c].Waiting?
      && lock'.draws == lock.draws + [c] && lock'.releases == lock.releases
  {
  }

  lemma DrawKeepsMemory(s: State, lock': Lock, base: nat, c: nat, req: Request)
    requires |s.jobs| == |s.lock.pcs| == |lock'.pcs| && MemoryOk(s, base) && c < |s.jobs|
    requires s.lock.releases < |s.lock.draws| ==> s.lock.draws[s.lock.releases] != c
    requires lock'.draws == s.lock.draws + [c] && lock'.releases == s.lock.releases
    ensures MemoryOk(s.(lock := lock', jobs := s.jobs[c := Job(req, Want)], requests := s.requests + [req]), base)
  {
    assert (s.requests + [req])[..s.lock.releases] == s.requests[..s.lock.releases];
    hide SeqBlocks, SeqEnd, AlignUp, Pow2;
  }

  lemma DrawKeepsOk(s: State, m: nat, base: nat, t: Turn)
    requires 0 < |s.jobs| <= m && |s.jobs| == |s.lock.pcs| && Ok(s, m, base)
    requires t.cpu < |s.jobs| && s.lock.pcs[t.cpu].Idle?
    ensures Ok(Advance(s, m, t), m, base)
  {
    hide Inv, JobsOk, MemoryOk, Step;
    var c, lock' := t.cpu, Step(s.lock, m, t.cpu);
    StepKeepsInv(s.lock, m, c);
    InLineFacts(s.lock, m);
    DrawStep(s.lock, m, c);
    DrawKeepsJobs(s, lock', c, t.request);
    DrawKeepsMemory(s, lock', base, c, t.request);
  }

  lemma ReturnStep(lock: Lock, m: nat, c: nat)
    requires m > 0 && c < |lock.pcs| && lock.pcs[c].Leaving?
    ensures
      var lock' := Step(lock, m, c);
      lock'.pcs == lock.pcs[c := Idle] && lock'.draws == lock.draws && lock'.releases == lock.releases + 1
  {
  }

  lemma ReturnKeepsOk(s: State, m: nat, base: nat, t: Turn)
    requires 0 < |s.jobs| <= m && |s.jobs| == |s.lock.pcs| && Ok(s, m, base)
    requires t.cpu < |s.jobs| && s.lock.pcs[t.cpu].Leaving?
    ensures Ok(Advance(s, m, t), m, base)
  {
    hide Inv, JobsOk, MemoryOk, Step;
    var s', c := Advance(s, m, t), t.cpu;
    StepKeepsInv(s.lock, m, c);
    InLineFacts(s.lock, m);
    ReturnStep(s.lock, m, c);
    assert Holder(s.lock, c);
    LeaverIsDone(s, c);
    JobsCount(s);
    ReturnKeepsJobs(s, s', c);
    ReturnKeepsMemory(s, s', base, c);
  }

  lemma JobsCount(s: State)
    requires |s.jobs| == |s.lock.pcs| && JobsOk(s)
    ensures |s.requests| == |s.lock.draws|
  {
  }

  /** The head of the line returns its block, and the next in line has done nothing yet. */
  lemma ReturnKeepsMemory(s: State, s': State, base: nat, c: nat)
    requires |s.jobs| == |s.lock.pcs| && MemoryOk(s, base) && s.lock.releases < |s.lock.draws|
        && s.lock.draws[s.lock.releases] == c
    requires c < |s.jobs| && s.jobs[c].Job? && s.jobs[c].phase.Done? && s.jobs[c].request == s.requests[s.lock.releases]
    requires |s'.jobs| == |s'.lock.pcs| && s'.requests == s.requests && s'.base == s.base
    requires s'.lock.draws == s.lock.draws && s'.lock.releases == s.lock.releases + 1
    requires s'.blocks == s.blocks + [Block(s.jobs[c].phase.res, s.jobs[c].request.size)]
    requires s'.lock.releases < |s'.lock.draws| ==>
               var next := s'.lock.draws[s'.lock.releases];
               next < |s'.jobs| && s'.jobs[next].Job? && s'.jobs[next].phase.Want?
    ensures MemoryOk(s', base)
  {
    OneMoreBlock(base, s.requests, s.lock.releases);
    hide SeqBlocks, SeqEnd, AlignUp, Pow2;
  }

  lemma LeaverIsDone(s: State, c: nat)
    requires |s.jobs| == |s.lock.pcs| && JobsOk(s) && c < |s.jobs| && s.lock.pcs[c].Leaving?
    requires s.lock.releases < |s.lock.draws| && s.lock.draws[s.lock.releases] == c
    ensures s.jobs[c].Job? && s.jobs[c].phase.Done? && s.jobs[c].request == s.requests[s.lock.releases]
  {
  }

  lemma OneMoreBlock(base: nat, requests: seq<Request>, r: nat)
    requires r < |requests|
    ensures
      var e, up := SeqEnd(base, requests[..r]), AlignUp(SeqEnd(base, requests[..r]), Pow2(requests[r].shift));
      && SeqEnd(base, requests[..r + 1]) == up + requests[r].size
      && SeqBlocks(base, requests[..r + 1]) == SeqBlocks(base, requests[..r]) + [Block(up, requests[r].size)]
  {
    assert requests[..r + 1][..r] == requests[..r];
  }

  /** Returning frees the head of the line; the next in line has not touched m_base yet. */
  lemma ReturnKeepsJobs(s: State, s': State, c: nat)
    requires |s.jobs| == |s.lock.pcs| && JobsOk(s) && s.lock.releases < |s.lock.draws|
        && s.lock.draws[s.lock.releases] == c
    requires forall j :: s.lock.releases < j < |s.lock.draws| ==> s.lock.draws[j] != c
    requires forall j :: s.lock.releases < j < |s.lock.draws| ==>
               s.lock.draws[j] < |s.jobs| && s.lock.pcs[s.lock.draws[j]].Waiting?
    requires c < |s.jobs| && s'.jobs == s.jobs[c := NoJob] && s'.requests == s.requests
    requires s'.lock.pcs == s.lock.pcs[c := Idle] && s'.lock.draws == s.lock.draws
        && s'.lock.releases == s.lock.releases + 1
    ensures JobsOk(s')
    ensures s'.lock.releases < |s'.lock.draws| ==>
              var next := s'.lock.draws[s'.lock.releases];
              next < |s'.jobs| && s'.jobs[next].Job? && s'.jobs[next].phase.Want?
  {
  }

  lemma AdvanceKeepsOk(s: State, m: nat, base: nat, t: Turn)
    requires 0 < |s.jobs| <= m && |s.jobs| == |s.lock.pcs| && Ok(s, m, base)
    ensures Ok(Advance(s, m, t), m, base)
  {
    var c := t.cpu;
    if c < |s.jobs| {
      match s.lock.pcs[c] {
        case Idle => DrawKeepsOk(s, m, base, t);
        case Waiting(_) => EnterKeepsOk(s, m, base, t);
        case Inside(_) => BodyKeepsOk(s, m, base, c);
        case Leaving(_, _) => ReturnKeepsOk(s, m, base, t);
      }
    }
  }

  lemma EnterKeepsOk(s: State, m: nat, base: nat, t: Turn)
    requires 0 < |s.jobs| <= m && |s.jobs| == |s.lock.pcs| && Ok(s, m, base)
    requires t.cpu < |s.jobs| && s.lock.pcs[t.cpu].Waiting?
    ensures Ok(Advance(s, m, t), m, base)
  {
    hide Inv, JobsOk, MemoryOk, Step;
    var c, lock' := t.cpu, Step(s.lock, m, t.cpu);
    StepKeepsInv(s.lock, m, c);
    EnterStep(s.lock, m, c);
    EnterKeepsJobs(s, lock', c);
    SameMemory(s, lock', base);
  }

  lemma EnterStep(lock: Lock, m: nat, c: nat)
    requires m > 0 && c < |lock.pcs| && lock.pcs[c].Waiting?
    ensures
      var lock' := Step(lock, m, c);
      && lock'.pcs == lock.pcs[c := lock'.pcs[c]] && (lock'.pcs[c].Waiting? || lock'.pcs[c].Inside?)
      && lock'.draws == lock.draws && lock'.releases == lock.releases
  {
  }

  lemma EnterKeepsJobs(s: State, lock': Lock, c: nat)
    requires |s.jobs| == |s.lock.pcs| == |lock'.pcs| && JobsOk(s) && c < |s.jobs| && s.lock.pcs[c].Waiting?
    requires lock'.pcs == s.lock.pcs[c := lock'.pcs[c]] && !lock'.pcs[c].Leaving?
    requires lock'.draws == s.lock.draws && lock'.releases == s.lock.releases
    ensures JobsOk(s.(lock := lock'))
  {
  }

  lemma {:induction false} RunIsOk(n: nat, m: nat, base: nat, turns: seq<Turn>)
    requires 0 < n <= m
    ensures Ok(Run(n, m, base, turns), m, base)
  {
    if turns == [] {
      Reachable(n, m, []);
    } else {
      hide Ok;
      RunIsOk(n, m, base, turns[..|turns| - 1]);
      AdvanceKeepsOk(Run(n, m, base, turns[..|turns| - 1]), m, base, turns[|turns| - 1]);
    }
  }

  // ---------------------------------------------------------------------------------------
  // Results

  /**
   Linearizability: whatever the interleaving, the blocks returned so far are those that one CPU
   would return serving the requests alone in ticket order.
   */
  lemma AllocationIsLinearizable(n: nat, m: nat, base: nat, turns: seq<Turn>)
    requires 0 < n <= m
    ensures
      var s := Run(n, m, base, turns);
      |s.blocks| <= |s.requests| == |s.lock.draws| && s.blocks == SeqBlocks(base, s.requests[..|s.blocks|])
  {
    RunIsOk(n, m, base, turns);
  }

  /** Where the free memory begins before block i. */
  function EndBefore(blocks: seq<Block>, base: nat, i: nat): nat
    requires i <= |blocks|
  {
    if i == 0 then base else blocks[i - 1].address + blocks[i - 1].size
  }

  /** Each block starts at the least multiple of its alignment not below the end of the one before. */
  ghost predicate Packed(blocks: seq<Block>, requests: seq<Request>, base: nat)
    requires |blocks| == |requests|
  {
    forall i :: 0 <= i < |blocks| ==>
      && blocks[i].size == requests[i].size
      && IsLeastMultiple(blocks[i].address, EndBefore(blocks, base, i), Pow2(requests[i].shift))
  }

  lemma {:induction false} SeqBlocksPacked(base: nat, requests: seq<Request>)
    ensures Packed(SeqBlocks(base, requests), requests, base)
    ensures SeqEnd(base, requests) == EndBefore(SeqBlocks(base, requests), base, |requests|)
  {
    if requests == [] {
    } else {
      var n := |requests| - 1;
      SeqBlocksPacked(base, requests[..n]);
      AlignUpIsLeastMultiple(SeqEnd(base, requests[..n]), Pow2(requests[n].shift), requests[n].shift);
      var before, all := SeqBlocks(base, requests[..n]), SeqBlocks(base, requests);
      hide AlignUp, Pow2, IsLeastMultiple;
      forall i | 0 <= i < |all|
        ensures all[i].size == requests[i].size
        ensures IsLeastMultiple(all[i].address, EndBefore(all, base, i), Pow2(requests[i].shift))
      {
        if i < n {
          assert all[i] == before[i] && requests[..n][i] == requests[i];
        }
        assert EndBefore(all, base, i) == EndBefore(before, base, i);
      }
    }
  }

  /** Blocks returned to any CPUs ascend in ticket order and never overlap. */
  lemma BlocksNeverOverlap(n: nat, m: nat, base: nat, turns: seq<Turn>)
    requires 0 < n <= m
    ensures
      var s := Run(n, m, base, turns);
      && |s.blocks| <= |s.requests| && Packed(s.blocks, s.requests[..|s.blocks|], base)
      && forall i, j :: 0 <= i < j < |s.blocks| ==>
           base <= s.blocks[i].address && s.blocks[i].address + s.blocks[i].size <= s.blocks[j].address
  {
    AllocationIsLinearizable(n, m, base, turns);
    var s := Run(n, m, base, turns);
    var served := s.requests[..|s.blocks|];
    SeqBlocksPacked(base, served);
    forall j | 0 <= j < |s.blocks|
      ensures base <= s.blocks[j].address
      ensures forall i :: 0 <= i < j ==> s.blocks[i].address + s.blocks[i].size <= s.blocks[j].address
    {
      PackedAscends(s.blocks, served, base, j);
    }
  }

  lemma {:induction false} PackedAscends(blocks: seq<Block>, requests: seq<Request>, base: nat, j: nat)
    requires |blocks| == |requests| && Packed(blocks, requests, base) && j < |blocks|
    ensures base <= blocks[j].address
    ensures forall i :: 0 <= i < j ==> blocks[i].address + blocks[i].size <= blocks[j].address
  {
    assert IsLeastMultiple(blocks[j].address, EndBefore(blocks, base, j), Pow2(requests[j].shift));
    if j == 0 {
    } else {
      PackedAscends(blocks, requests, base, j - 1);
    }
  }

  // ---------------------------------------------------------------------------------------
  // Progress under fair schedules

  /** How far the head of the line has come: in, through five statements, and out in two steps. */
  function StepsDone(pc: Pc, job: Job): nat {
    match pc
    case Idle => 0
    case Waiting(_) => 0
    case Leaving(_, _) => 7
    case Inside(_) =>
      if job.NoJob? then 0
      else
        match job.phase
        case Want => 1
        case Loaded(_) => 2
        case Aligned => 3
        case GotResult(_) => 4
        case Bumping(_, _) => 5
        case Done(_) => 6
  }

  /** Steps done by heads of the line so far: eight for each block returned. */
  function Served(s: State): nat
    requires |s.jobs| == |s.lock.pcs|
  {
    8 * s.lock.releases
    + if s.lock.releases < |s.lock.draws| && s.lock.draws[s.lock.releases] < |s.jobs| then
        StepsDone(s.lock.pcs[s.lock.draws[s.lock.releases]], s.jobs[s.lock.draws[s.lock.releases]])
      else 0
  }

  /** A step of the head of the line is progress; a step of anyone else leaves the head and its progress as they are. */
  ghost predicate Advances(s: State, s': State, c: nat)
    requires |s.jobs| == |s.lock.pcs| && |s'.jobs| == |s'.lock.pcs|
  {
    && s.requests <= s'.requests && s.lock.draws <= s'.lock.draws && Served(s) <= Served(s')
    && (s.lock.releases < |s.lock.draws| ==>
          if c == s.lock.draws[s.lock.releases] then Served(s) < Served(s') else s'.lock.releases == s.lock.releases)
  }

  lemma DrawAdvances(s: State, m: nat, base: nat, t: Turn)
    requires 0 < |s.jobs| <= m && |s.jobs| == |s.lock.pcs| && Ok(s, m, base)
    requires t.cpu < |s.jobs| && s.lock.pcs[t.cpu].Idle?
    ensures Advances(s, Advance(s, m, t), t.cpu)
  {
    InLineFacts(s.lock, m);
    DrawStep(s.lock, m, t.cpu);
    hide Inv, JobsOk, MemoryOk, Step;
  }

  /** Only the head of the line sees its ticket served. */
  lemma WaitStep(lock: Lock, m: nat, c: nat)
    requires 0 < |lock.pcs| <= m && Inv(lock, m) && c < |lock.pcs| && lock.pcs[c].Waiting?
    ensures
      var lock' := Step(lock, m, c);
      if lock.releases < |lock.draws| && lock.draws[lock.releases] == c then
        && lock'.pcs == lock.pcs[c := lock'.pcs[c]] && lock'.pcs[c].Inside?
        && lock'.draws == lock.draws && lock'.releases == lock.releases
      else lock' == lock
  {
    hide TicketOf;
    var j :| 0 <= j < |Queue(lock)| && Queue(lock)[j] == c;
    EntersAtHead(lock, m, c, lock.releases + j);
    InLineFacts(lock, m);
  }

  lemma EnterAdvances(s: State, m: nat, base: nat, t: Turn)
    requires 0 < |s.jobs| <= m && |s.jobs| == |s.lock.pcs| && Ok(s, m, base)
    requires t.cpu < |s.jobs| && s.lock.pcs[t.cpu].Waiting?
    ensures Advances(s, Advance(s, m, t), t.cpu)
  {
    WaitStep(s.lock, m, t.cpu);
    assert s.jobs[t.cpu].Job? && s.jobs[t.cpu].phase.Want?;
    hide Inv, JobsOk, MemoryOk, Step;
  }

  lemma BodyAdvances(s: State, m: nat, base: nat, t: Turn)
    requires 0 < |s.jobs| <= m && |s.jobs| == |s.lock.pcs| && Ok(s, m, base)
    requires t.cpu < |s.jobs| && s.lock.pcs[t.cpu].Inside?
    ensures Advances(s, Advance(s, m, t), t.cpu)
  {
    InLineFacts(s.lock, m);
    LeaveStep(s.lock, m, t.cpu);
    assert Holder(s.lock, t.cpu);
    HolderHasJob(s, m, base, t.cpu);
    hide Inv, JobsOk, MemoryOk, Step, PhaseOk, AlignUp, Pow2, SeqEnd;
  }

  lemma ReturnAdvances(s: State, m: nat, base: nat, t: Turn)
    requires 0 < |s.jobs| <= m && |s.jobs| == |s.lock.pcs| && Ok(s, m, base)
    requires t.cpu < |s.jobs| && s.lock.pcs[t.cpu].Leaving?
    ensures Advances(s, Advance(s, m, t), t.cpu)
  {
    InLineFacts(s.lock, m);
    ReturnStep(s.lock, m, t.cpu);
    assert Holder(s.lock, t.cpu);
    hide Inv, JobsOk, MemoryOk, Step;
  }

  lemma AdvanceProgress(s: State, m: nat, base: nat, t: Turn)
    requires 0 < |s.jobs| <= m && |s.jobs| == |s.lock.pcs| && Ok(s, m, base)
    ensures Advances(s, Advance(s, m, t), t.cpu)
  {
    InLineFacts(s.lock, m);
    hide Ok, Inv;
    if t.cpu < |s.jobs| {
      hide Advances, Advance;
      match s.lock.pcs[t.cpu] {
        case Idle => DrawAdvances(s, m, base, t);
        case Waiting(_) => EnterAdvances(s, m, base, t);
        case Inside(_) => BodyAdvances(s, m, base, t);
        case Leaving(_, _) => ReturnAdvances(s, m, base, t);
      }
    }
  }

  /** Turns from any state. */
  function Onward(s: State, m: nat, turns: seq<Turn>): (r: State)
    requires m > 0 && |s.jobs| == |s.lock.pcs|
    ensures |r.jobs| == |r.lock.pcs| == |s.jobs|
    decreases |turns|
  {
    if turns == [] then s else Onward(Advance(s, m, turns[0]), m, turns[1..])
  }

  lemma {:induction false} RunGoesOn(n: nat, m: nat, base: nat, a: seq<Turn>, b: seq<Turn>)
    requires m > 0
    ensures Run(n, m, base, a + b) == Onward(Run(n, m, base, a), m, b)
    decreases |b|
  {
    if b == [] {
      assert a + b == a;
    } else {
      assert a + b == (a + [b[0]]) + b[1..] && (a + [b[0]])[..|a|] == a;
      hide Advance;
      RunGoesOn(n, m, base, a + [b[0]], b[1..]);
    }
  }

  lemma {:induction false} OnwardSplits(s: State, m: nat, a: seq<Turn>, b: seq<Turn>)
    requires m > 0 && |s.jobs| == |s.lock.pcs|
    ensures Onward(s, m, a + b) == Onward(Onward(s, m, a), m, b)
    decreases |a|
  {
    if a == [] {
      assert a + b == b;
    } else {
      assert (a + b)[1..] == a[1..] + b;
      hide Advance;
      OnwardSplits(Advance(s, m, a[0]), m, a[1..], b);
    }
  }

  lemma {:induction false} OnwardKeepsServed(s: State, m: nat, base: nat, turns: seq<Turn>)
    requires 0 < |s.jobs| <= m && |s.jobs| == |s.lock.pcs| && Ok(s, m, base)
    ensures
      var r := Onward(s, m, turns);
      Ok(r, m, base) && s.requests <= r.requests && Served(s) <= Served(r)
    decreases |turns|
  {
    if turns == [] {
    } else {
      hide Ok, Served, Advance;
      AdvanceKeepsOk(s, m, base, turns[0]);
      AdvanceProgress(s, m, base, turns[0]);
      OnwardKeepsServed(Advance(s, m, turns[0]), m, base, turns[1..]);
    }
  }

  ghost predicate Runs(c: nat, round: seq<Turn>) { exists t :: t in round && t.cpu == c }

  /** Each round runs every CPU at least once, in any order and as often as it likes, asking for anything. */
  ghost predicate FairTurns(rounds: seq<seq<Turn>>, n: nat) {
    forall i, c: nat :: 0 <= i < |rounds| && c < n ==> Runs(c, rounds[i])
  }

  lemma {:induction false} RoundServes(s: State, m: nat, base: nat, round: seq<Turn>)
    requires 0 < |s.jobs| <= m && |s.jobs| == |s.lock.pcs| && Ok(s, m, base)
    requires s.lock.releases < |s.lock.draws| && Runs(s.lock.draws[s.lock.releases], round)
    ensures Served(s) < Served(Onward(s, m, round))
    decreases |round|
  {
    hide Ok, Served, Advance;
    var head := s.lock.draws[s.lock.releases];
    var t :| t in round && t.cpu == head;
    var s' := Advance(s, m, round[0]);
    AdvanceKeepsOk(s, m, base, round[0]);
    AdvanceProgress(s, m, base, round[0]);
    if round[0].cpu == head {
      OnwardKeepsServed(s', m, base, round[1..]);
    } else {
      assert t in round[1..];
      RoundServes(s', m, base, round[1..]);
    }
  }

  /** Until the first k requests have returned, every round is progress. */
  lemma {:induction false} RoundsServe(s: State, m: nat, base: nat, rounds: seq<seq<Turn>>, k: nat)
    requires 0 < |s.jobs| <= m && |s.jobs| == |s.lock.pcs| && Ok(s, m, base)
    requires k <= |s.requests| && FairTurns(rounds, |s.jobs|)
    ensures
      var r := Onward(s, m, Flat(rounds));
      && Ok(r, m, base) && s.requests <= r.requests
      && (Served(r) >= 8 * k || Served(r) >= Served(s) + |rounds|)
    decreases |rounds|
  {
    OnwardKeepsServed(s, m, base, Flat(rounds));
    if rounds == [] {
    } else if Served(s) < 8 * k {
      InLineFacts(s.lock, m);
      JobsCount(s);
      assert Runs(s.lock.draws[s.lock.releases], rounds[0]);
      hide Ok, Served, Advance, Runs;
      RoundServes(s, m, base, rounds[0]);
      OnwardKeepsServed(s, m, base, rounds[0]);
      OnwardSplits(s, m, rounds[0], Flat(rounds[1..]));
      RoundsServe(Onward(s, m, rounds[0]), m, base, rounds[1..], k);
    }
  }

  /** Blocks of the first requests are the first blocks. */
  lemma {:induction false} SeqBlocksPrefix(base: nat, requests: seq<Request>, k: nat)
    requires k <= |requests|
    ensures SeqBlocks(base, requests[..k]) <= SeqBlocks(base, requests)
    decreases |requests|
  {
    if k == |requests| {
      assert requests[..k] == requests;
    } else {
      var before := requests[..|requests| - 1];
      SeqBlocksPrefix(base, before, k);
      assert before[..k] == requests[..k];
    }
  }

  lemma ServedReturns(s: State, m: nat, base: nat, k: nat)
    requires m > 0 && |s.jobs| == |s.lock.pcs| && Ok(s, m, base) && Served(s) >= 8 * k
    ensures k <= |s.blocks| <= |s.requests| && s.blocks == SeqBlocks(base, s.requests[..|s.blocks|])
  {
    hide Inv, SeqBlocks, SeqEnd;
  }

  /**
   No request waits for ever: whatever has happened so far, after 8n rounds in each of which every CPU
   runs at least once, every request made so far has returned the block a single CPU would give it.
   */
  lemma EveryRequestReturns(n: nat, m: nat, base: nat, turns: seq<Turn>, rounds: seq<seq<Turn>>)
    requires 0 < n <= m && FairTurns(rounds, n) && |rounds| >= 8 * n
    ensures
      SeqBlocks(base, Run(n, m, base, turns).requests) <= Run(n, m, base, turns + Flat(rounds)).blocks
  {
    hide Run, Ok, Served, FairTurns, SeqBlocks;
    var s, r := Run(n, m, base, turns), Run(n, m, base, turns + Flat(rounds));
    var k := |s.requests|;
    RunIsOk(n, m, base, turns);
    RunGoesOn(n, m, base, turns, Flat(rounds));
    RoundsServe(s, m, base, rounds, k);
    FewInLine(s, m, base);
    ServedReturns(r, m, base, k);
    var served := r.requests[..|r.blocks|];
    assert served[..k] == s.requests;
    SeqBlocksPrefix(base, served, k);
  }

  lemma FewInLine(s: State, m: nat, base: nat)
    requires m > 0 && |s.jobs| == |s.lock.pcs| && Ok(s, m, base)
    ensures 8 * |s.requests| <= Served(s) + 8 * |s.jobs|
  {
    LineIsShort(s.lock, m, |s.jobs|);
  }
}
