/**
 The ticket lock as an interleaving of atomic steps of N CPUs, with both counters modulo M.

 A CPU that is idle draws a ticket when it is scheduled; a waiting CPU reads now_serving and
 enters if it sees its ticket; the holder leaves in two steps, a load and a store. Draw, entry and
 release histories are kept beside the state so that claims about order can be stated.
 */
module TicketLock {
  import opened Bits

  datatype Pc = Idle | Waiting(ticket: nat) | Inside(ticket: nat) | Leaving(ticket: nat, successor: nat)

  datatype Lock = Lock(
    nextTicket: nat, nowServing: nat, pcs: seq<Pc>,
    draws: seq<nat>, entries: seq<nat>, releases: nat)

  function Start(n: nat): Lock {
    Lock(0, 0, seq(n, i => Idle), [], [], 0)
  }

  /** The counter value of the i-th ticket, counting from 0 without wrapping. */
  function TicketOf(i: nat, m: nat): nat
    requires m > 0
  {
    i % m
  }

  /** One atomic step of CPU c. */
  function Step(s: Lock, m: nat, c: nat): (r: Lock)
    requires m > 0
    ensures |r.pcs| == |s.pcs|
  {
    if c >= |s.pcs| then s
    else
      match s.pcs[c]
      case Idle =>
        // the fetch-and-add that draws a ticket
        s.(pcs := s.pcs[c := Waiting(s.nextTicket)], nextTicket := (s.nextTicket + 1) % m, draws := s.draws + [c])
      case Waiting(t) =>
        // one load of the counter served, compared with the ticket
        if s.nowServing == t then s.(pcs := s.pcs[c := Inside(t)], entries := s.entries + [c]) else s
      case Inside(t) =>
        // the load of a release
        s.(pcs := s.pcs[c := Leaving(t, (s.nowServing + 1) % m)])
      case Leaving(t, successor) =>
        // the store of a release
        s.(pcs := s.pcs[c := Idle], nowServing := successor, releases := s.releases + 1)
  }

  /** The state after a schedule, any interleaving of the CPUs' steps. */
  function Exec(n: nat, m: nat, schedule: seq<nat>): (s: Lock)
    requires m > 0
    ensures |s.pcs| == n
  {
    if schedule == [] then Start(n)
    else Step(Exec(n, m, schedule[..|schedule| - 1]), m, schedule[|schedule| - 1])
  }

  /** CPUs that have drawn and not yet released, in the order of their draws. */
  function Queue(s: Lock): seq<nat>
    requires s.releases <= |s.draws|
  {
    s.draws[s.releases..]
  }

  ghost predicate Distinct(q: seq<nat>) {
    forall i, j :: 0 <= i < j < |q| ==> q[i] != q[j]
  }

  ghost predicate QueueOk(pcs: seq<Pc>, releases: nat, m: nat, q: seq<nat>)
    requires m > 0
  {
    && Distinct(q)
    && (forall j :: 0 <= j < |q| ==> q[j] < |pcs| && !pcs[q[j]].Idle? && pcs[q[j]].ticket == TicketOf(releases + j, m))
    && (forall c :: 0 <= c < |pcs| && !pcs[c].Idle? ==> c in q)
    && (forall j :: 0 < j < |q| ==> pcs[q[j]].Waiting?)
    && (q != [] && pcs[q[0]].Leaving? ==> pcs[q[0]].successor == TicketOf(releases + 1, m))
  }

  /** Both counters and the entry history agree with the draws and releases so far. */
  ghost predicate CountsOk(s: Lock, m: nat)
    requires m > 0
  {
    && s.releases <= |s.draws|
    && s.nowServing == TicketOf(s.releases, m) && s.nextTicket == TicketOf(|s.draws|, m)
    && s.entries <= s.draws
    && |s.entries| == s.releases + (if HeadHolds(s.pcs, Queue(s)) then 1 else 0)
  }

  predicate HeadHolds(pcs: seq<Pc>, q: seq<nat>) {
    q != [] && q[0] < |pcs| && (pcs[q[0]].Inside? || pcs[q[0]].Leaving?)
  }

  /** The state is a FIFO queue: who waits, with which ticket, and who alone may be inside. */
  ghost predicate Inv(s: Lock, m: nat)
    requires m > 0
  {
    CountsOk(s, m) && QueueOk(s.pcs, s.releases, m, Queue(s))
  }

  lemma ModSucc(x: nat, m: nat)
    requires m > 0
    ensures (TicketOf(x, m) + 1) % m == TicketOf(x + 1, m)
  {
    QuotientForm(x, m);
    if x % m + 1 < m {
      DivModUnique(x + 1, m, x / m, x % m + 1);
      DivModUnique(x % m + 1, m, 0, x % m + 1);
    } else {
      assert m * (x / m + 1) == m * (x / m) + m;
      DivModUnique(x + 1, m, x / m + 1, 0);
      DivModUnique(x % m + 1, m, 1, 0);
    }
  }

  /** Fewer than m consecutive numbers have distinct residues. */
  lemma ModDistinct(r: nat, i: nat, j: nat, m: nat)
    requires i <= j < i + m && TicketOf(r + i, m) == TicketOf(r + j, m)
    ensures i == j
  {
    var a, b := r + i, r + j;
    QuotientForm(a, m);
    QuotientForm(b, m);
    Distribute(m, b / m, a / m);
    if b / m > a / m {
      AtLeastOnce(m, b / m - a / m);
    } else {
      AtMostZero(m, b / m - a / m);
    }
  }

  lemma {:induction false} QueueSize(q: seq<nat>, n: nat)
    requires Distinct(q) && forall j :: 0 <= j < |q| ==> q[j] < n
    ensures |q| <= n
  {
    if q == [] {
    } else {
      assert q[0] < n;
      if n - 1 in q {
        var k :| 0 <= k < |q| && q[k] == n - 1;
        var rest := q[..k] + q[k + 1..];
        QueueSize(rest, n - 1);
      } else {
        QueueSize(q, n - 1);
      }
    }
  }

  /** Only the head of the queue can see its ticket served. */
  lemma HeadOnly(s: Lock, m: nat, j: nat)
    requires 0 < |s.pcs| <= m && Inv(s, m) && j < |Queue(s)|
    requires s.pcs[Queue(s)[j]].ticket == s.nowServing
    ensures j == 0
  {
    QueueSize(Queue(s), |s.pcs|);
    ModDistinct(s.releases, 0, j, m);
  }

  lemma QueueAppend(pcs: seq<Pc>, releases: nat, m: nat, q: seq<nat>, c: nat)
    requires m > 0 && QueueOk(pcs, releases, m, q) && c < |pcs| && pcs[c].Idle?
    ensures QueueOk(pcs[c := Waiting(TicketOf(releases + |q|, m))], releases, m, q + [c])
  {
    hide TicketOf;
    var pcs' := pcs[c := Waiting(TicketOf(releases + |q|, m))];
    assert forall j :: 0 <= j < |q| ==> q[j] != c;
    forall d | 0 <= d < |pcs'| && !pcs'[d].Idle?
      ensures d in q + [c]
    {
      assert d == c || d in q;
    }
  }

  lemma QueuePop(pcs: seq<Pc>, releases: nat, m: nat, q: seq<nat>)
    requires m > 0 && QueueOk(pcs, releases, m, q) && q != []
    ensures q[0] < |pcs| && QueueOk(pcs[q[0] := Idle], releases + 1, m, q[1..])
    ensures !HeadHolds(pcs[q[0] := Idle], q[1..])
  {
    hide TicketOf;
    var pcs' := pcs[q[0] := Idle];
    forall j | 0 <= j < |q[1..]|
      ensures q[1..][j] != q[0] && pcs'[q[1..][j]].Waiting?
      ensures pcs'[q[1..][j]].ticket == TicketOf(releases + 1 + j, m)
    {
      assert q[1..][j] == q[j + 1] && releases + (j + 1) == releases + 1 + j;
    }
    forall d | 0 <= d < |pcs'| && !pcs'[d].Idle?
      ensures d in q[1..]
    {
      assert d in q && d != q[0];
    }
  }

  lemma DrawKeepsInv(s: Lock, m: nat, c: nat)
    requires 0 < |s.pcs| <= m && Inv(s, m) && c < |s.pcs| && s.pcs[c].Idle?
    ensures Inv(Step(s, m, c), m)
  {
    hide TicketOf, QueueOk;
    var q, s' := Queue(s), Step(s, m, c);
    assert Queue(s') == q + [c] && s.releases + |q| == |s.draws|;
    QueueAppend(s.pcs, s.releases, m, q, c);
    ModSucc(|s.draws|, m);
    assert HeadHolds(s'.pcs, q + [c]) <==> HeadHolds(s.pcs, q);
  }

  lemma SpinKeepsInv(s: Lock, m: nat, c: nat)
    requires 0 < |s.pcs| <= m && Inv(s, m) && c < |s.pcs| && s.pcs[c].Waiting?
    ensures Inv(Step(s, m, c), m)
  {
    hide TicketOf;
    if s.pcs[c].ticket == s.nowServing {
      var j :| 0 <= j < |Queue(s)| && Queue(s)[j] == c;
      HeadOnly(s, m, j);
      assert s.draws[s.releases] == c;
      assert Queue(Step(s, m, c)) == Queue(s);
    }
  }

  lemma LoadKeepsInv(s: Lock, m: nat, c: nat)
    requires 0 < |s.pcs| <= m && Inv(s, m) && c < |s.pcs| && s.pcs[c].Inside?
    ensures Inv(Step(s, m, c), m)
  {
    hide TicketOf;
    var j :| 0 <= j < |Queue(s)| && Queue(s)[j] == c;
    assert Queue(Step(s, m, c)) == Queue(s);
    ModSucc(s.releases, m);
  }

  lemma StoreKeepsInv(s: Lock, m: nat, c: nat)
    requires 0 < |s.pcs| <= m && Inv(s, m) && c < |s.pcs| && s.pcs[c].Leaving?
    ensures Inv(Step(s, m, c), m)
  {
    hide TicketOf, QueueOk;
    var q, s' := Queue(s), Step(s, m, c);
    HolderIsHead(s.pcs, s.releases, m, q, c);
    assert Queue(s') == q[1..];
    QueuePop(s.pcs, s.releases, m, q);
  }

  lemma HolderIsHead(pcs: seq<Pc>, releases: nat, m: nat, q: seq<nat>, c: nat)
    requires m > 0 && QueueOk(pcs, releases, m, q) && c < |pcs| && (pcs[c].Inside? || pcs[c].Leaving?)
    ensures q != [] && c == q[0]
    ensures pcs[c].ticket == TicketOf(releases, m)
    ensures pcs[c].Leaving? ==> pcs[c].successor == TicketOf(releases + 1, m)
  {
    hide TicketOf;
    var j :| 0 <= j < |q| && q[j] == c;
  }

  lemma StepKeepsInv(s: Lock, m: nat, c: nat)
    requires 0 < |s.pcs| <= m && Inv(s, m)
    ensures Inv(Step(s, m, c), m) && |Step(s, m, c).pcs| == |s.pcs|
  {
    if c < |s.pcs| {
      match s.pcs[c] {
        case Idle => DrawKeepsInv(s, m, c);
        case Waiting(_) => SpinKeepsInv(s, m, c);
        case Inside(_) => LoadKeepsInv(s, m, c);
        case Leaving(_, _) => StoreKeepsInv(s, m, c);
      }
    }
  }

  lemma ExecOneMore(n: nat, m: nat, schedule: seq<nat>, c: nat)
    requires m > 0
    ensures Exec(n, m, schedule + [c]) == Step(Exec(n, m, schedule), m, c)
  {
    assert (schedule + [c])[..|schedule|] == schedule;
  }

  lemma {:induction false} Reachable(n: nat, m: nat, schedule: seq<nat>)
    requires 0 < n <= m
    ensures Inv(Exec(n, m, schedule), m) && |Exec(n, m, schedule).pcs| == n
  {
    if schedule == [] {
      DivModUnique(0, m, 0, 0);
    } else {
      hide Inv;
      Reachable(n, m, schedule[..|schedule| - 1]);
      StepKeepsInv(Exec(n, m, schedule[..|schedule| - 1]), m, schedule[|schedule| - 1]);
    }
  }

  // ---------------------------------------------------------------------------------------
  // Mutual exclusion

  predicate Holder(s: Lock, c: nat) { c < |s.pcs| && (s.pcs[c].Inside? || s.pcs[c].Leaving?) }

  ghost predicate Exclusive(s: Lock) {
    forall c: nat, d: nat :: Holder(s, c) && Holder(s, d) ==> c == d
  }

  /**
   Outstanding tickets are distinct and are the cyclic range from now_serving up to next_ticket,
   one for each draw not yet released.
   */
  ghost predicate TicketsOutstanding(s: Lock, m: nat)
    requires m > 0
  {
    && s.releases <= |s.draws| <= s.releases + m
    && s.nowServing == TicketOf(s.releases, m) && s.nextTicket == TicketOf(|s.draws|, m)
    && (forall j :: s.releases <= j < |s.draws| ==>
          s.draws[j] < |s.pcs| && !s.pcs[s.draws[j]].Idle? && s.pcs[s.draws[j]].ticket == TicketOf(j, m))
    && (forall c :: 0 <= c < |s.pcs| && !s.pcs[c].Idle? ==> c in s.draws[s.releases..])
    && (forall c, d :: 0 <= c < d < |s.pcs| && !s.pcs[c].Idle? && !s.pcs[d].Idle? ==>
          s.pcs[c].ticket != s.pcs[d].ticket)
  }

  lemma OutstandingTickets(n: nat, m: nat, schedule: seq<nat>)
    requires 0 < n <= m
    ensures TicketsOutstanding(Exec(n, m, schedule), m)
  {
    hide TicketOf, Exec;
    Reachable(n, m, schedule);
    var s := Exec(n, m, schedule);
    var q := Queue(s);
    QueueSize(q, n);
    forall j | s.releases <= j < |s.draws|
      ensures s.draws[j] == q[j - s.releases] && s.draws[j] < n && !s.pcs[s.draws[j]].Idle?
      ensures s.pcs[s.draws[j]].ticket == TicketOf(j, m)
    {
      assert s.releases + (j - s.releases) == j;
    }
    forall c, d | 0 <= c < d < |s.pcs| && !s.pcs[c].Idle? && !s.pcs[d].Idle?
      ensures s.pcs[c].ticket != s.pcs[d].ticket
    {
      TicketsDiffer(s, m, c, d);
    }
  }

  lemma TicketsDiffer(s: Lock, m: nat, c: nat, d: nat)
    requires 0 < |s.pcs| <= m && Inv(s, m) && c < d < |s.pcs| && !s.pcs[c].Idle? && !s.pcs[d].Idle?
    ensures s.pcs[c].ticket != s.pcs[d].ticket
  {
    hide TicketOf;
    var q := Queue(s);
    QueueSize(q, |s.pcs|);
    var i :| 0 <= i < |q| && q[i] == c;
    var j :| 0 <= j < |q| && q[j] == d;
    if s.pcs[c].ticket == s.pcs[d].ticket {
      ModDistinct(s.releases, if i <= j then i else j, if i <= j then j else i, m);
    }
  }

  /** The holder's ticket is the one served, and what it is about to store has not gone stale. */
  lemma HolderIsServed(n: nat, m: nat, schedule: seq<nat>, c: nat)
    requires 0 < n <= m && Holder(Exec(n, m, schedule), c)
    ensures
      var s := Exec(n, m, schedule);
      && s.pcs[c].ticket == s.nowServing
      && (s.pcs[c].Leaving? ==> s.pcs[c].successor == (s.nowServing + 1) % m)
      && (forall d: nat :: Holder(s, d) ==> d == c)
  {
    Reachable(n, m, schedule);
    var s := Exec(n, m, schedule);
    HolderIsHead(s.pcs, s.releases, m, Queue(s), c);
    ModSucc(s.releases, m);
    forall d: nat | Holder(s, d)
      ensures d == c
    {
      HolderIsHead(s.pcs, s.releases, m, Queue(s), d);
    }
  }

  function Range(k: nat): seq<nat> { seq(k, i => i) }

  /** After the first k CPUs have drawn. */
  lemma {:induction false} AllDraw(n: nat, m: nat, k: nat)
    requires 0 < m && k <= n
    ensures
      var s := Exec(n, m, Range(k));
      && s.nextTicket == TicketOf(k, m) && s.nowServing == 0 && |s.pcs| == n
      && (forall i :: 0 <= i < n ==> s.pcs[i] == if i < k then Waiting(TicketOf(i, m)) else Idle)
  {
    if k == 0 {
      DivModUnique(0, m, 0, 0);
    } else {
      AllDraw(n, m, k - 1);
      assert Range(k)[..k - 1] == Range(k - 1);
      ModSucc(k - 1, m);
    }
  }

  /** With more CPUs than tickets, the counters wrap onto a ticket still outstanding. */
  lemma TooManyCpus(n: nat, m: nat)
    requires 0 < m < n
    ensures !Exclusive(Exec(n, m, Range(m + 1) + [0, m]))
  {
    hide Exec;
    AllDraw(n, m, m + 1);
    ExecOneMore(n, m, Range(m + 1), 0);
    ExecOneMore(n, m, Range(m + 1) + [0], m);
    assert Range(m + 1) + [0] + [m] == Range(m + 1) + [0, m];
    DivModUnique(0, m, 0, 0);
    DivModUnique(m, m, 1, 0);
    var s := Exec(n, m, Range(m + 1) + [0, m]);
    assert Holder(s, 0) && Holder(s, m);
  }

  /** At most one CPU is ever inside, in every interleaving, exactly when there are no more CPUs than tickets. */
  lemma MutualExclusionIff(n: nat, m: nat)
    requires 0 < n && 0 < m
    ensures (forall schedule :: Exclusive(Exec(n, m, schedule))) <==> n <= m
  {
    if n <= m {
      forall schedule
        ensures Exclusive(Exec(n, m, schedule))
      {
        var s := Exec(n, m, schedule);
        forall c: nat, d: nat | Holder(s, c) && Holder(s, d)
          ensures c == d
        {
          HolderIsServed(n, m, schedule, c);
        }
      }
    } else {
      TooManyCpus(n, m);
    }
  }

  // ---------------------------------------------------------------------------------------
  // Order and waiting

  /** CPUs enter in the order in which they drew. */
  lemma FirstComeFirstServed(n: nat, m: nat, schedule: seq<nat>)
    requires 0 < n <= m
    ensures Exec(n, m, schedule).entries <= Exec(n, m, schedule).draws
    ensures
      var s := Exec(n, m, schedule);
      s.releases <= |s.entries| <= s.releases + 1
  {
    Reachable(n, m, schedule);
  }

  /** CPU c draws at step i and is still waiting after every later step up to k. */
  ghost predicate WaitsSince(n: nat, m: nat, schedule: seq<nat>, c: nat, i: nat, k: nat)
    requires m > 0
  {
    && i < k <= |schedule| && c < n && schedule[i] == c
    && Exec(n, m, schedule[..i]).pcs[c].Idle?
    && (forall l :: i < l <= k ==> Exec(n, m, schedule[..l]).pcs[c].Waiting?)
  }

  /** Draw number place is c's, and c is still in line. */
  ghost predicate InLine(s: Lock, c: nat, place: nat) {
    && c < |s.pcs| && s.pcs[c].Waiting?
    && s.releases <= place < |s.draws| && s.draws[place] == c
  }

  /** No step of another CPU passes a CPU in line. */
  lemma StepKeepsPlace(s: Lock, m: nat, d: nat, c: nat, place: nat)
    requires 0 < |s.pcs| <= m && Inv(s, m) && InLine(s, c, place) && Step(s, m, d).pcs[c].Waiting?
    ensures InLine(Step(s, m, d), c, place) && Step(s, m, d).pcs[c].ticket == s.pcs[c].ticket
  {
    hide TicketOf;
    if d < |s.pcs| && s.pcs[d].Leaving? {
      hide QueueOk;
      HolderIsHead(s.pcs, s.releases, m, Queue(s), d);
      assert s.draws[s.releases] == d;
    }
  }

  lemma {:induction false} PlaceInLine(n: nat, m: nat, schedule: seq<nat>, c: nat, i: nat, k: nat)
    requires 0 < n <= m && WaitsSince(n, m, schedule, c, i, k)
    ensures
      var before, now := Exec(n, m, schedule[..i]), Exec(n, m, schedule[..k]);
      InLine(now, c, |before.draws|) && now.pcs[c].ticket == before.nextTicket
    decreases k
  {
    hide Exec, Inv;
    var before, prev := Exec(n, m, schedule[..i]), Exec(n, m, schedule[..k - 1]);
    assert schedule[..k] == schedule[..k - 1] + [schedule[k - 1]];
    ExecOneMore(n, m, schedule[..k - 1], schedule[k - 1]);
    Reachable(n, m, schedule[..k - 1]);
    if k > i + 1 {
      PlaceInLine(n, m, schedule, c, i, k - 1);
      StepKeepsPlace(prev, m, schedule[k - 1], c, |before.draws|);
    } else {
      CountsFit(prev, m);
    }
  }

  lemma CountsFit(s: Lock, m: nat)
    requires m > 0 && Inv(s, m)
    ensures s.releases <= |s.draws|
  {
  }

  /**
   Bounded waiting: a CPU that drew ticket t can enter exactly when the number of releases since its
   draw is (t - now_serving at the draw) mod m; no later ticket overtakes it.
   */
  lemma EntersAfterExactly(n: nat, m: nat, schedule: seq<nat>, c: nat, i: nat, k: nat)
    requires 0 < n <= m && WaitsSince(n, m, schedule, c, i, k)
    ensures
      var before, now := Exec(n, m, schedule[..i]), Exec(n, m, schedule[..k]);
      && now.releases - before.releases <= (before.nextTicket - before.nowServing) % m
      && (Step(now, m, c).pcs[c].Inside? <==>
            now.releases - before.releases == (before.nextTicket - before.nowServing) % m)
  {
    hide Exec, TicketOf, Inv;
    var before, now := Exec(n, m, schedule[..i]), Exec(n, m, schedule[..k]);
    PlaceInLine(n, m, schedule, c, i, k);
    Reachable(n, m, schedule[..i]);
    Reachable(n, m, schedule[..k]);
    WaitersFit(before, n, m, c);
    Counters(before, m);
    TicketDistance(before.releases, |before.draws| - before.releases, m);
    EntersAtHead(now, m, c, |before.draws|);
  }

  lemma Counters(s: Lock, m: nat)
    requires m > 0 && Inv(s, m)
    ensures s.nextTicket == TicketOf(|s.draws|, m) && s.nowServing == TicketOf(s.releases, m)
    ensures s.releases <= |s.draws| && |Queue(s)| == |s.draws| - s.releases
  {
  }

  lemma EntersAtHead(s: Lock, m: nat, c: nat, place: nat)
    requires 0 < |s.pcs| <= m && Inv(s, m) && InLine(s, c, place)
    ensures s.pcs[c].ticket == s.nowServing <==> place == s.releases
  {
    hide TicketOf;
    var ahead := place - s.releases;
    assert Queue(s)[ahead] == c;
    if s.pcs[c].ticket == s.nowServing {
      HeadOnly(s, m, ahead);
    }
  }

  /** While some CPU is idle, fewer than n others are outstanding. */
  lemma WaitersFit(s: Lock, n: nat, m: nat, c: nat)
    requires 0 < n <= m && Inv(s, m) && |s.pcs| == n && c < n && s.pcs[c].Idle?
    ensures |Queue(s)| < n
  {
    var q := Queue(s);
    assert Distinct(q + [c]);
    QueueSize(q + [c], n);
  }

  lemma TicketDistance(r: nat, d: nat, m: nat)
    requires d < m
    ensures (TicketOf(r + d, m) - TicketOf(r, m)) % m == d
  {
    QuotientForm(r, m);
    QuotientForm(r + d, m);
    var a, b := r / m, (r + d) / m;
    Distribute(m, b, a);
    var x := TicketOf(r + d, m) - TicketOf(r, m);
    assert x == m * (a - b) + d by { Distribute(m, a, b); }
    DivModUnique(x, m, a - b, d);
  }

  /** Steps the CPU at the head of the queue still needs to release the lock. */
  function StepsToRelease(pc: Pc): nat {
    match pc
    case Waiting(_) => 3
    case Inside(_) => 2
    case _ => 1
  }

  function Repeat(s: Lock, m: nat, c: nat, k: nat): Lock
    requires m > 0
    decreases k
  {
    if k == 0 then s else Repeat(Step(s, m, c), m, c, k - 1)
  }

  /** The lock never gets stuck: at most three more steps of the CPU at the head release it. */
  lemma HeadReleases(n: nat, m: nat, schedule: seq<nat>)
    requires 0 < n <= m
    ensures
      var s := Exec(n, m, schedule);
      s.releases < |s.draws| ==>
        var c := s.draws[s.releases];
        c < n && Repeat(s, m, c, StepsToRelease(s.pcs[c])).releases == s.releases + 1
  {
    hide Exec, TicketOf;
    Reachable(n, m, schedule);
    var s := Exec(n, m, schedule);
    if s.releases < |s.draws| {
      var c := Queue(s)[0];
      assert s.pcs[c].ticket == TicketOf(s.releases + 0, m);
      var s1 := Step(s, m, c);
      var s2 := Step(s1, m, c);
      assert Repeat(s, m, c, 1) == s1;
      assert Repeat(s1, m, c, 1) == Repeat(s, m, c, 2) == s2;
      assert Repeat(s1, m, c, 2) == Repeat(s2, m, c, 1) == Repeat(s, m, c, 3);
    }
  }

  // ---------------------------------------------------------------------------------------
  // Progress under fair schedules

  /** How far the head of the line has come. */
  function Stage(pc: Pc): nat {
    match pc
    case Inside(_) => 1
    case Leaving(_, _) => 2
    case _ => 0
  }

  /** Steps done by heads of the line so far: three for each release. */
  function Progress(s: Lock): nat {
    3 * s.releases
    + if s.releases < |s.draws| && s.draws[s.releases] < |s.pcs| then Stage(s.pcs[s.draws[s.releases]]) else 0
  }

  /** A step of the head is progress; a step of anyone else leaves the head and its progress as they are. */
  lemma StepProgress(s: Lock, m: nat, c: nat)
    requires 0 < |s.pcs| <= m && Inv(s, m)
    ensures s.draws <= Step(s, m, c).draws && Progress(Step(s, m, c)) >= Progress(s)
    ensures
      s.releases < |s.draws| ==>
        if c == s.draws[s.releases] then Progress(Step(s, m, c)) > Progress(s)
        else Step(s, m, c).releases == s.releases
  {
    hide TicketOf;
    var q := Queue(s);
    if q != [] {
      assert q[0] == s.draws[s.releases] && s.pcs[q[0]].ticket == TicketOf(s.releases + 0, m);
    }
    if c < |s.pcs| && (s.pcs[c].Leaving? || s.pcs[c].Inside?) {
      HolderIsHead(s.pcs, s.releases, m, q, c);
    }
  }

  /** A schedule from any state. */
  function RunFrom(s: Lock, m: nat, schedule: seq<nat>): (r: Lock)
    requires m > 0
    ensures |r.pcs| == |s.pcs|
    decreases |schedule|
  {
    if schedule == [] then s else RunFrom(Step(s, m, schedule[0]), m, schedule[1..])
  }

  lemma {:induction false} ExecSplits(n: nat, m: nat, a: seq<nat>, b: seq<nat>)
    requires m > 0
    ensures Exec(n, m, a + b) == RunFrom(Exec(n, m, a), m, b)
    decreases |b|
  {
    if b == [] {
      assert a + b == a;
    } else {
      hide Exec, Step;
      assert a + b == (a + [b[0]]) + b[1..];
      ExecOneMore(n, m, a, b[0]);
      ExecSplits(n, m, a + [b[0]], b[1..]);
    }
  }

  lemma {:induction false} RunKeepsProgress(s: Lock, m: nat, schedule: seq<nat>)
    requires 0 < |s.pcs| <= m && Inv(s, m)
    ensures
      var r := RunFrom(s, m, schedule);
      Inv(r, m) && s.draws <= r.draws && Progress(r) >= Progress(s)
    decreases |schedule|
  {
    if schedule == [] {
    } else {
      hide Step, Inv, Progress;
      StepKeepsInv(s, m, schedule[0]);
      StepProgress(s, m, schedule[0]);
      RunKeepsProgress(Step(s, m, schedule[0]), m, schedule[1..]);
    }
  }

  /** A schedule in which the head of the line runs at least once is progress. */
  lemma {:induction false} RoundProgress(s: Lock, m: nat, round: seq<nat>)
    requires 0 < |s.pcs| <= m && Inv(s, m) && s.releases < |s.draws| && s.draws[s.releases] in round
    ensures Progress(RunFrom(s, m, round)) > Progress(s)
    decreases |round|
  {
    hide Step, Inv, Progress;
    var s' := Step(s, m, round[0]);
    StepKeepsInv(s, m, round[0]);
    StepProgress(s, m, round[0]);
    if round[0] == s.draws[s.releases] {
      RunKeepsProgress(s', m, round[1..]);
    } else {
      RoundProgress(s', m, round[1..]);
    }
  }

  function Flat<T>(rounds: seq<seq<T>>): seq<T> {
    if rounds == [] then [] else rounds[0] + Flat(rounds[1..])
  }

  lemma {:induction false} RunSplits(s: Lock, m: nat, a: seq<nat>, b: seq<nat>)
    requires m > 0
    ensures RunFrom(s, m, a + b) == RunFrom(RunFrom(s, m, a), m, b)
    decreases |a|
  {
    if a == [] {
      assert a + b == b;
    } else {
      assert (a + b)[1..] == a[1..] + b;
      RunSplits(Step(s, m, a[0]), m, a[1..], b);
    }
  }

  /** Each round schedules every CPU at least once, in any order and as often as it likes. */
  ghost predicate Fair(rounds: seq<seq<nat>>, n: nat) {
    forall i, c: nat :: 0 <= i < |rounds| && c < n ==> c in rounds[i]
  }

  /** Until a draw has entered, every round is progress. */
  lemma {:induction false} RoundsProgress(s: Lock, m: nat, rounds: seq<seq<nat>>, place: nat)
    requires 0 < |s.pcs| <= m && Inv(s, m) && place < |s.draws| && Fair(rounds, |s.pcs|)
    ensures
      var r := RunFrom(s, m, Flat(rounds));
      && Inv(r, m) && s.draws <= r.draws
      && (Progress(r) >= 3 * place + 1 || Progress(r) >= Progress(s) + |rounds|)
    decreases |rounds|
  {
    RunKeepsProgress(s, m, Flat(rounds));
    if rounds == [] {
    } else if Progress(s) <= 3 * place {
      HeadInRange(s, m);
      assert s.draws[s.releases] in rounds[0];
      hide Inv, Progress, Step;
      RoundProgress(s, m, rounds[0]);
      RunKeepsProgress(s, m, rounds[0]);
      RunSplits(s, m, rounds[0], Flat(rounds[1..]));
      RoundsProgress(RunFrom(s, m, rounds[0]), m, rounds[1..], place);
    }
  }

  lemma HeadInRange(s: Lock, m: nat)
    requires m > 0 && Inv(s, m) && s.releases < |s.draws|
    ensures s.draws[s.releases] < |s.pcs|
  {
    assert Queue(s)[0] == s.draws[s.releases];
  }

  lemma ProgressEnters(s: Lock, m: nat, place: nat)
    requires m > 0 && Inv(s, m) && place < |s.draws| && Progress(s) >= 3 * place + 1
    ensures place < |s.entries| && s.entries[place] == s.draws[place]
  {
    if s.releases < |s.draws| {
      assert Queue(s)[0] == s.draws[s.releases];
    }
  }

  /**
   No CPU starves: whatever the schedule so far, each ticket drawn enters, in its place in the order of
   draws, within 3n - 2 further rounds in each of which every CPU runs at least once.
   */
  lemma EveryDrawEnters(n: nat, m: nat, schedule: seq<nat>, rounds: seq<seq<nat>>, place: nat)
    requires 0 < n <= m && Fair(rounds, n) && |rounds| >= 3 * n - 2
    requires place < |Exec(n, m, schedule).draws|
    ensures
      var s, r := Exec(n, m, schedule), Exec(n, m, schedule + Flat(rounds));
      place < |r.entries| && r.entries[place] == s.draws[place]
  {
    var s := Exec(n, m, schedule);
    Reachable(n, m, schedule);
    hide Exec, Step, Fair;
    LineIsShort(s, m, n);
    ExecSplits(n, m, schedule, Flat(rounds));
    RoundsProgress(s, m, rounds, place);
    ProgressEnters(RunFrom(s, m, Flat(rounds)), m, place);
  }

  lemma LineIsShort(s: Lock, m: nat, n: nat)
    requires m > 0 && Inv(s, m) && |s.pcs| == n
    ensures |s.draws| <= s.releases + n
  {
    QueueSize(Queue(s), n);
  }
}
