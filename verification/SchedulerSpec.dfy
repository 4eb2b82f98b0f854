/** The process scheduler as a state machine over queues: what the pointer
    manipulating routines of the interpreter amount to. */
module SchedulerSpec {
  import opened Basics

  const MAX_SMALL_INTEGER := 16383

  /** Where a process is: every process is in exactly one place. */
  datatype Place = Active | Queued(list: Oop) | Suspended

  /** `readyLists[i]` is the ready list of priority i + 1; all other lists are
      semaphores.  `active` is the process that runs next: the new process while
      a switch is pending, the scheduler's active process otherwise. */
  datatype Sched = Sched(readyLists: seq<Oop>, priority: map<Oop, int>,
                         lists: map<Oop, seq<Oop>>, excess: map<Oop, int>,
                         place: map<Oop, Place>, active: Oop)

  predicate IsSemaphore(m: Sched, s: Oop) { s in m.lists && s !in m.readyLists }

  predicate HasPriority(m: Sched, p: Oop) { p in m.priority && 1 <= m.priority[p] <= |m.readyLists| }

  /** The ready list of a process. */
  function ReadyList(m: Sched, p: Oop): Oop
    requires HasPriority(m, p)
  {
    m.readyLists[m.priority[p] - 1]
  }

  // ---------- the invariant ----------

  ghost predicate WellFormed(m: Sched) {
    && NIL !in m.lists && Distinct(m.readyLists)
    && (forall i | 0 <= i < |m.readyLists| :: m.readyLists[i] in m.lists)
    && (forall s :: s in m.excess <==> IsSemaphore(m, s))
    && NIL !in m.priority && m.place.Keys == m.priority.Keys
    && (forall p | p in m.priority :: HasPriority(m, p))
  }

  /** The lists hold exactly the processes queued on them, each once, and ready
      processes are on the list of their own priority. */
  ghost predicate Placed(m: Sched) {
    && (forall l | l in m.lists :: Distinct(m.lists[l]))
    && (forall l, p | l in m.lists && p in m.lists[l] :: p in m.place && m.place[p] == Queued(l))
    && (forall p | p in m.place && m.place[p].Queued? :: m.place[p].list in m.lists && p in m.lists[m.place[p].list])
    && (forall p | p in m.place && m.place[p].Queued? && m.place[p].list in m.readyLists ::
          HasPriority(m, p) && ReadyList(m, p) == m.place[p].list)
  }

  /** Nobody waits on a semaphore that has signals to spare. */
  ghost predicate Counted(m: Sched) {
    forall s | s in m.excess ::
      0 <= m.excess[s] <= MAX_SMALL_INTEGER && (0 < m.excess[s] ==> s in m.lists && m.lists[s] == [])
  }

  ghost predicate Queues(m: Sched) { WellFormed(m) && Placed(m) && Counted(m) }

  /** One process is active, and no ready process has a higher priority. */
  ghost predicate Fair(m: Sched) {
    && m.active in m.place && m.active in m.priority
    && (forall p | p in m.place :: m.place[p] == Active <==> p == m.active)
    && (forall i | 0 <= i < |m.readyLists| && m.readyLists[i] in m.lists && m.lists[m.readyLists[i]] != [] ::
          i + 1 <= m.priority[m.active])
  }

  ghost predicate Inv(m: Sched) { Queues(m) && Fair(m) }

  // ---------- the operations ----------

  function AddLast(m: Sched, p: Oop, l: Oop): Sched
    requires l in m.lists
  {
    m.(lists := m.lists[l := m.lists[l] + [p]], place := m.place[p := Queued(l)])
  }

  function RemoveFirst(m: Sched, l: Oop): Sched
    requires l in m.lists && m.lists[l] != []
  {
    m.(lists := m.lists[l := m.lists[l][1..]], place := m.place[m.lists[l][0] := Suspended])
  }

  function TransferTo(m: Sched, p: Oop): Sched {
    m.(active := p, place := m.place[p := Active])
  }

  ghost function Sleep(m: Sched, p: Oop): Sched
    requires Queues(m) && p in m.priority
  {
    AddLast(m, p, ReadyList(m, p))
  }

  /** `resume:`, for a process that is suspended. */
  ghost function Resume(m: Sched, p: Oop): Sched
    requires Inv(m) && p in m.priority && m.place[p] == Suspended
  {
    if m.priority[p] > m.priority[m.active] then TransferTo(Sleep(m, m.active), p) else Sleep(m, p)
  }

  /** `synchronousSignal:`; a count that would leave the SmallInteger range is not stored. */
  ghost function Signal(m: Sched, s: Oop): Sched
    requires Inv(m) && IsSemaphore(m, s)
  {
    if m.lists[s] == [] then
      if m.excess[s] + 1 <= MAX_SMALL_INTEGER then m.(excess := m.excess[s := m.excess[s] + 1]) else m
    else
      RemoveFirstKeeps(m, s);
      Resume(RemoveFirst(m, s), m.lists[s][0])
  }

  /** The highest priority that has a ready process. */
  function HighestReady(m: Sched, n: nat): (h: nat)
    requires n <= |m.readyLists| && forall i | 0 <= i < n :: m.readyLists[i] in m.lists
    ensures h <= n
    ensures 0 < h ==> m.lists[m.readyLists[h - 1]] != []
    ensures forall i | h <= i < n :: m.lists[m.readyLists[i]] == []
  {
    if n == 0 || m.lists[m.readyLists[n - 1]] != [] then n else HighestReady(m, n - 1)
  }

  ghost predicate SomeReady(m: Sched)
    requires Queues(m)
  {
    0 < HighestReady(m, |m.readyLists|)
  }

  /** `suspendActive`: hand over to the first process of the highest priority that is ready. */
  ghost function SuspendActive(m: Sched): Sched
    requires Queues(m) && SomeReady(m)
  {
    var l := m.readyLists[HighestReady(m, |m.readyLists|) - 1];
    TransferTo(RemoveFirst(m, l), m.lists[l][0])
  }

  /** The active process queued on a semaphore, before it hands over. */
  ghost function Waiting(m: Sched, s: Oop): Sched
    requires Inv(m) && IsSemaphore(m, s)
  {
    AddLast(m, m.active, s)
  }

  ghost predicate CanWait(m: Sched, s: Oop)
    requires Inv(m) && IsSemaphore(m, s)
  {
    0 < m.excess[s] || SomeReady(m)
  }

  /** `primitiveWait`. */
  ghost function Wait(m: Sched, s: Oop): Sched
    requires Inv(m) && IsSemaphore(m, s) && CanWait(m, s)
  {
    if 0 < m.excess[s] then m.(excess := m.excess[s := m.excess[s] - 1])
    else
      WaitingKeeps(m, s);
      SuspendActive(Waiting(m, s))
  }

  /** `primitiveSuspend` of the active process. */
  ghost function Suspend(m: Sched): Sched
    requires Inv(m) && SomeReady(m)
  {
    SuspendingKeeps(m);
    SuspendActive(m.(place := m.place[m.active := Suspended]))
  }

  // ---------- every operation keeps the invariant ----------

  lemma AddLastPlaced(m: Sched, p: Oop, l: Oop)
    requires WellFormed(m) && Placed(m) && p in m.place && !m.place[p].Queued? && l in m.lists
    requires l in m.readyLists ==> ReadyList(m, p) == l
    ensures Placed(AddLast(m, p, l))
  {
    assert p !in m.lists[l];
  }

  lemma AddLastKeeps(m: Sched, p: Oop, l: Oop)
    requires Queues(m) && p in m.place && !m.place[p].Queued? && l in m.lists
    requires l in m.readyLists ==> ReadyList(m, p) == l
    requires l in m.excess ==> m.excess[l] == 0
    ensures Queues(AddLast(m, p, l))
  {
    AddLastPlaced(m, p, l);
  }

  lemma RemoveFirstPlaced(m: Sched, l: Oop)
    requires Placed(m) && l in m.lists && m.lists[l] != []
    ensures Placed(RemoveFirst(m, l))
  {
    var p := m.lists[l][0];
    assert p in m.lists[l];
    assert p !in m.lists[l][1..];
    var r := RemoveFirst(m, l);
    forall k, q | k in r.lists && q in r.lists[k]
      ensures q in r.place && r.place[q] == Queued(k)
    {
      assert q in m.lists[k] && m.place[q] == Queued(k);
      assert m.place[p] == Queued(l);
      assert q != p;
    }
    forall q | q in r.place && r.place[q].Queued?
      ensures r.place[q].list in r.lists && q in r.lists[r.place[q].list]
    {
      assert q in m.lists[m.place[q].list];
    }
  }

  lemma RemoveFirstKeeps(m: Sched, l: Oop)
    requires Queues(m) && l in m.lists && m.lists[l] != []
    ensures var p := m.lists[l][0]; p in m.place && m.place[p] == Queued(l)
    ensures var r := RemoveFirst(m, l); Queues(r) && r.place[m.lists[l][0]] == Suspended
    ensures Fair(m) ==> Fair(RemoveFirst(m, l))
  {
    assert m.lists[l][0] in m.lists[l];
    RemoveFirstPlaced(m, l);
  }

  lemma PlaceKeeps(m: Sched, p: Oop, where: Place)
    requires Queues(m) && p in m.place && !m.place[p].Queued? && !where.Queued?
    ensures Queues(m.(place := m.place[p := where]))
  {
  }

  lemma TransferKeeps(m: Sched, p: Oop)
    requires Queues(m) && p in m.place && m.place[p] == Suspended
    requires forall q | q in m.place :: m.place[q] != Active
    requires forall i | 0 <= i < |m.readyLists| && m.lists[m.readyLists[i]] != [] :: i + 1 <= m.priority[p]
    ensures Inv(TransferTo(m, p))
  {
    TransferIsFair(m, p);
    TransferQueues(m, p);
    hide Queues, Fair;
  }

  lemma TransferIsFair(m: Sched, p: Oop)
    requires WellFormed(m) && p in m.place && m.place[p] == Suspended
    requires forall q | q in m.place :: m.place[q] != Active
    requires forall i | 0 <= i < |m.readyLists| && m.lists[m.readyLists[i]] != [] :: i + 1 <= m.priority[p]
    ensures Fair(TransferTo(m, p))
  {
  }

  lemma TransferQueues(m: Sched, p: Oop)
    requires Queues(m) && p in m.place && m.place[p] == Suspended
    ensures Queues(TransferTo(m, p))
  {
    PlaceKeeps(m, p, Active);
    ActiveIsFree(m.(place := m.place[p := Active]), p);
    hide Queues;
  }

  /** Nothing about the queues depends on which process is active. */
  lemma ActiveIsFree(m: Sched, p: Oop)
    requires Queues(m)
    ensures Queues(m.(active := p))
  {
    var r := m.(active := p);
    assert WellFormed(r) && Counted(r);
    assert Placed(r) by {
      assert forall q | q in m.priority :: HasPriority(r, q) && ReadyList(r, q) == ReadyList(m, q);
    }
  }

  lemma WaitingKeeps(m: Sched, s: Oop)
    requires Inv(m) && IsSemaphore(m, s) && m.excess[s] <= 0
    ensures Queues(Waiting(m, s))
    ensures SomeReady(m) ==> SomeReady(Waiting(m, s))
    ensures forall p | p in m.place :: Waiting(m, s).place[p] != Active
  {
    AddLastKeeps(m, m.active, s);
    SameReady(m, Waiting(m, s), |m.readyLists|);
  }

  lemma SuspendingKeeps(m: Sched)
    requires Inv(m)
    ensures var r := m.(place := m.place[m.active := Suspended]); Queues(r) && (SomeReady(m) ==> SomeReady(r))
  {
    PlaceKeeps(m, m.active, Suspended);
    SameReady(m, m.(place := m.place[m.active := Suspended]), |m.readyLists|);
  }

  lemma {:induction false} SameReady(m: Sched, r: Sched, n: nat)
    requires WellFormed(m) && WellFormed(r) && m.readyLists == r.readyLists && n <= |m.readyLists|
    requires forall i | 0 <= i < |m.readyLists| :: m.lists[m.readyLists[i]] == r.lists[m.readyLists[i]]
    ensures HighestReady(m, n) == HighestReady(r, n)
  {
    if 0 < n {
      SameReady(m, r, n - 1);
    }
  }

  lemma ReadyPriority(m: Sched, i: int, p: Oop)
    requires WellFormed(m) && Placed(m) && 0 <= i < |m.readyLists| && p in m.lists[m.readyLists[i]]
    ensures p in m.priority && m.priority[p] == i + 1 && m.place[p] == Queued(m.readyLists[i])
  {
    assert ReadyList(m, p) == m.readyLists[i];
  }

  lemma SuspendActiveKeeps(m: Sched)
    requires Queues(m) && SomeReady(m)
    requires forall p | p in m.place :: m.place[p] != Active
    ensures Inv(SuspendActive(m))
  {
    var h := HighestReady(m, |m.readyLists|);
    var l := m.readyLists[h - 1];
    var p := m.lists[l][0];
    ReadyPriority(m, h - 1, p);
    RemoveFirstKeeps(m, l);
    hide Placed, Counted;
    TransferKeeps(RemoveFirst(m, l), p);
  }

  lemma ResumeKeeps(m: Sched, p: Oop)
    requires Inv(m) && p in m.priority && m.place[p] == Suspended
    ensures Inv(Resume(m, p))
  {
    hide Placed, Counted;
    if m.priority[p] > m.priority[m.active] {
      AddLastKeeps(m, m.active, ReadyList(m, m.active));
      TransferKeeps(Sleep(m, m.active), p);
    } else {
      AddLastKeeps(m, p, ReadyList(m, p));
    }
  }

  lemma SignalKeeps(m: Sched, s: Oop)
    requires Inv(m) && IsSemaphore(m, s)
    ensures Inv(Signal(m, s))
  {
    if m.lists[s] != [] {
      RemoveFirstKeeps(m, s);
      ResumeKeeps(RemoveFirst(m, s), m.lists[s][0]);
    }
  }

  lemma WaitKeeps(m: Sched, s: Oop)
    requires Inv(m) && IsSemaphore(m, s) && CanWait(m, s)
    ensures Inv(Wait(m, s))
  {
    if m.excess[s] <= 0 {
      WaitingKeeps(m, s);
      SuspendActiveKeeps(Waiting(m, s));
    }
  }

  lemma SuspendKeeps(m: Sched)
    requires Inv(m) && SomeReady(m)
    ensures Inv(Suspend(m))
  {
    SuspendingKeeps(m);
    SuspendActiveKeeps(m.(place := m.place[m.active := Suspended]));
  }

  // ---------- what the invariant says ----------

  /** A process is active, or on one list, once, or on none; a ready process is
      on the list of its own priority. */
  lemma OnePlace(m: Sched, p: Oop, k: Oop, l: Oop, i: int, j: int)
    requires Inv(m) && k in m.lists && l in m.lists && 0 <= i < |m.lists[k]| && 0 <= j < |m.lists[l]|
    requires m.lists[k][i] == p && m.lists[l][j] == p
    ensures k == l && i == j && p != m.active && m.place[p] == Queued(k)
    ensures k in m.readyLists ==>
              p in m.priority && 1 <= m.priority[p] <= |m.readyLists| && m.readyLists[m.priority[p] - 1] == k
  {
    assert p in m.lists[k] && p in m.lists[l];
    assert m.place[p] == Queued(k) == Queued(l);
    assert Distinct(m.lists[k]);
  }

  /** No ready process has a higher priority than the active one. */
  lemma NoneReadyAbove(m: Sched, q: Oop, l: Oop)
    requires Inv(m) && l in m.readyLists && q in m.lists[l]
    ensures q in m.priority && m.priority[q] <= m.priority[m.active]
  {
    var i :| 0 <= i < |m.readyLists| && m.readyLists[i] == l;
    ReadyPriority(m, i, q);
  }

  // ---------- runs ----------

  datatype Op = DoSignal(s: Oop) | DoWait(s: Oop) | DoResume(p: Oop) | DoSuspend

  ghost predicate Legal(m: Sched, op: Op)
    requires Inv(m)
  {
    match op
    case DoSignal(s) => IsSemaphore(m, s)
    case DoWait(s) => IsSemaphore(m, s) && CanWait(m, s)
    case DoResume(p) => p in m.priority && m.place[p] == Suspended
    case DoSuspend => SomeReady(m)
  }

  ghost function Step(m: Sched, op: Op): (r: Sched)
    requires Inv(m) && Legal(m, op)
    ensures Inv(r)
  {
    StepKeeps(m, op);
    Next(m, op)
  }

  ghost function Next(m: Sched, op: Op): Sched
    requires Inv(m) && Legal(m, op)
  {
    match op
    case DoSignal(s) => Signal(m, s)
    case DoWait(s) => Wait(m, s)
    case DoResume(p) => Resume(m, p)
    case DoSuspend => Suspend(m)
  }

  lemma StepKeeps(m: Sched, op: Op)
    requires Inv(m) && Legal(m, op)
    ensures Inv(Next(m, op))
  {
    hide Inv, Signal, Wait, Resume, Suspend;
    match op
    case DoSignal(s) => SignalKeeps(m, s);
    case DoWait(s) => WaitKeeps(m, s);
    case DoResume(p) => ResumeKeeps(m, p);
    case DoSuspend => SuspendKeeps(m);
  }

  ghost predicate LegalRun(m: Sched, ops: seq<Op>)
    requires Inv(m)
    decreases |ops|
  {
    ops == [] || (Legal(m, ops[0]) && LegalRun(Step(m, ops[0]), ops[1..]))
  }

  ghost function Run(m: Sched, ops: seq<Op>): (r: Sched)
    requires Inv(m) && LegalRun(m, ops)
    ensures Inv(r)
    decreases |ops|
  {
    if ops == [] then m else Run(Step(m, ops[0]), ops[1..])
  }

  /** Signals sent to s. */
  function Signals(ops: seq<Op>, s: Oop): nat {
    if ops == [] then 0 else (if ops[0] == DoSignal(s) then 1 else 0) + Signals(ops[1..], s)
  }

  /** Waits on s, whether they had to queue or not. */
  function Waits(ops: seq<Op>, s: Oop): nat {
    if ops == [] then 0 else (if ops[0] == DoWait(s) then 1 else 0) + Waits(ops[1..], s)
  }

  /** Signals that found nobody waiting and the count at its limit. */
  ghost function Lost(m: Sched, ops: seq<Op>, s: Oop): nat
    requires Inv(m) && LegalRun(m, ops)
    decreases |ops|
  {
    if ops == [] then 0
    else (if ops[0] == DoSignal(s) && m.lists[s] == [] && m.excess[s] == MAX_SMALL_INTEGER then 1 else 0)
         + Lost(Step(m, ops[0]), ops[1..], s)
  }

  /** Processes that queued on s, in the order they did. */
  ghost function Queuers(m: Sched, ops: seq<Op>, s: Oop): seq<Oop>
    requires Inv(m) && LegalRun(m, ops)
    decreases |ops|
  {
    if ops == [] then [] else QueuedBy(m, ops[0], s) + Queuers(Step(m, ops[0]), ops[1..], s)
  }

  ghost function QueuedBy(m: Sched, op: Op, s: Oop): seq<Oop>
    requires Inv(m)
  {
    if op == DoWait(s) && s in m.excess && m.excess[s] == 0 then [m.active] else []
  }

  ghost function ReleasedBy(m: Sched, op: Op, s: Oop): seq<Oop>
    requires Inv(m)
  {
    if op == DoSignal(s) && s in m.lists && m.lists[s] != [] then [m.lists[s][0]] else []
  }

  /** Processes that s let go, in the order it did. */
  ghost function Released(m: Sched, ops: seq<Op>, s: Oop): seq<Oop>
    requires Inv(m) && LegalRun(m, ops)
    decreases |ops|
  {
    if ops == [] then [] else ReleasedBy(m, ops[0], s) + Released(Step(m, ops[0]), ops[1..], s)
  }

  lemma Known(m: Sched, s: Oop)
    requires Inv(m) && IsSemaphore(m, s)
    ensures s in m.excess && 0 <= m.excess[s] <= MAX_SMALL_INTEGER && (0 < m.excess[s] ==> m.lists[s] == [])
  {
  }

  /** Queueing on a ready list and handing over leave the semaphores alone. */
  ghost predicate SameSemaphore(m: Sched, r: Sched, s: Oop) {
    && IsSemaphore(m, s) && IsSemaphore(r, s) && r.lists[s] == m.lists[s]
    && s in m.excess && s in r.excess && r.excess[s] == m.excess[s]
  }

  lemma ResumeOnSemaphore(m: Sched, p: Oop, s: Oop)
    requires Inv(m) && p in m.priority && m.place[p] == Suspended && IsSemaphore(m, s)
    ensures SameSemaphore(m, Resume(m, p), s)
  {
    hide Placed, Counted;
  }

  lemma SuspendActiveOnSemaphore(m: Sched, s: Oop)
    requires Queues(m) && SomeReady(m) && IsSemaphore(m, s)
    ensures SameSemaphore(m, SuspendActive(m), s)
  {
    hide Placed, Counted;
  }

  lemma SignalOnSemaphore(m: Sched, t: Oop, s: Oop)
    requires Inv(m) && IsSemaphore(m, t) && IsSemaphore(m, s)
    ensures var r := Signal(m, t);
            if s != t then SameSemaphore(m, r, s)
            else IsSemaphore(r, s) && s in m.excess && s in r.excess &&
                 if m.lists[s] != [] then r.lists[s] == m.lists[s][1..] && r.excess[s] == m.excess[s]
                 else r.lists[s] == [] &&
                      r.excess[s] == (if m.excess[s] < MAX_SMALL_INTEGER then m.excess[s] + 1 else m.excess[s])
  {
    if m.lists[t] != [] {
      RemoveFirstKeeps(m, t);
      ResumeOnSemaphore(RemoveFirst(m, t), m.lists[t][0], s);
      hide Placed, Counted, Fair, Resume;
    }
  }

  lemma WaitOnSemaphore(m: Sched, t: Oop, s: Oop)
    requires Inv(m) && IsSemaphore(m, t) && CanWait(m, t) && IsSemaphore(m, s)
    ensures var r := Wait(m, t);
            if s != t then SameSemaphore(m, r, s)
            else IsSemaphore(r, s) && s in m.excess && s in r.excess &&
                 if m.excess[s] == 0 then r.lists[s] == m.lists[s] + [m.active] && r.excess[s] == 0
                 else r.lists[s] == m.lists[s] && r.excess[s] == m.excess[s] - 1
  {
    if m.excess[t] <= 0 {
      WaitingKeeps(m, t);
      SuspendActiveOnSemaphore(Waiting(m, t), s);
      hide Placed, Fair, SuspendActive;
    }
  }

  lemma SuspendOnSemaphore(m: Sched, s: Oop)
    requires Inv(m) && SomeReady(m) && IsSemaphore(m, s)
    ensures SameSemaphore(m, Suspend(m), s)
  {
    SuspendingKeeps(m);
    SuspendActiveOnSemaphore(m.(place := m.place[m.active := Suspended]), s);
    hide Placed, Fair, Counted, SuspendActive;
  }

  /** What one operation does to one semaphore. */
  lemma StepOnSemaphore(m: Sched, op: Op, s: Oop)
    requires Inv(m) && Legal(m, op) && IsSemaphore(m, s)
    ensures var r := Step(m, op);
            IsSemaphore(r, s) && s in r.excess && s in m.excess && 0 <= m.excess[s] <= 16383 &&
            if op == DoSignal(s) then
              if m.lists[s] != [] then r.lists[s] == m.lists[s][1..] && r.excess[s] == m.excess[s]
              else r.lists[s] == [] &&
                   r.excess[s] == (if m.excess[s] < 16383 then m.excess[s] + 1 else m.excess[s])
            else if op == DoWait(s) then
              if m.excess[s] == 0 then r.lists[s] == m.lists[s] + [m.active] && r.excess[s] == 0
              else r.lists[s] == m.lists[s] && r.excess[s] == m.excess[s] - 1
            else r.lists[s] == m.lists[s] && r.excess[s] == m.excess[s]
  {
    hide Inv, Signal, Wait, Resume, Suspend;
    Known(m, s);
    match op
    case DoSignal(t) => SignalOnSemaphore(m, t, s);
    case DoWait(t) => WaitOnSemaphore(m, t, s);
    case DoResume(p) => ResumeOnSemaphore(m, p, s);
    case DoSuspend => SuspendOnSemaphore(m, s);
  }

  /** Signals in, waits out: over any run,
      excess + signals kept - waits = excess afterwards - processes left waiting. */
  lemma {:induction false} Conservation(m: Sched, ops: seq<Op>, s: Oop)
    requires Inv(m) && LegalRun(m, ops) && IsSemaphore(m, s)
    ensures var r := Run(m, ops);
            IsSemaphore(r, s) &&
            (m.excess[s] - |m.lists[s]|) + Signals(ops, s)
              == (r.excess[s] - |r.lists[s]|) + Waits(ops, s) + Lost(m, ops, s)
    decreases |ops|
  {
    hide Inv, Legal, Step;
    assert s in m.excess by { Known(m, s); }
    if ops != [] {
      StepOnSemaphore(m, ops[0], s);
      Conservation(Step(m, ops[0]), ops[1..], s);
    }
  }

  /** First in, first out: those who waited before and during the run are those
      released, in the same order, followed by those still waiting. */
  lemma {:induction false} FirstComeFirstServed(m: Sched, ops: seq<Op>, s: Oop)
    requires Inv(m) && LegalRun(m, ops) && IsSemaphore(m, s)
    ensures IsSemaphore(Run(m, ops), s)
    ensures m.lists[s] + Queuers(m, ops, s) == Released(m, ops, s) + Run(m, ops).lists[s]
    decreases |ops|
  {
    hide Inv, Legal, Step, QueuedBy, ReleasedBy;
    if ops != [] {
      StepKeepsOrder(m, ops[0], s);
      var next := Step(m, ops[0]);
      FirstComeFirstServed(next, ops[1..], s);
      InOrder(m.lists[s], QueuedBy(m, ops[0], s), ReleasedBy(m, ops[0], s), next.lists[s],
              Queuers(next, ops[1..], s), Released(next, ops[1..], s), Run(m, ops).lists[s]);
    }
  }

  /** The queue before a step and who joins it are who leaves it and the queue after. */
  lemma StepKeepsOrder(m: Sched, op: Op, s: Oop)
    requires Inv(m) && Legal(m, op) && IsSemaphore(m, s)
    ensures IsSemaphore(Step(m, op), s) && s in m.lists && s in Step(m, op).lists
    ensures m.lists[s] + QueuedBy(m, op, s) == ReleasedBy(m, op, s) + Step(m, op).lists[s]
  {
    hide Inv, Legal, Step;
    StepOnSemaphore(m, op, s);
    var q := m.lists[s];
    assert q != [] ==> q == [q[0]] + q[1..];
  }

  lemma InOrder(queue: seq<Oop>, joined: seq<Oop>, gone: seq<Oop>, next: seq<Oop>,
                later: seq<Oop>, released: seq<Oop>, left: seq<Oop>)
    requires queue + joined == gone + next && next + later == released + left
    ensures queue + (joined + later) == (gone + released) + left
  {
    assert queue + (joined + later) == (queue + joined) + later;
    assert (gone + next) + later == gone + (next + later);
    assert gone + (released + left) == (gone + released) + left;
  }

  // ---------- buffered signals ----------

  /** The buffer is emptied from its end: the latest signal is delivered first. */
  function DrainOps(buffer: seq<Oop>): seq<Op> {
    if buffer == [] then [] else [DoSignal(buffer[|buffer| - 1])] + DrainOps(buffer[..|buffer| - 1])
  }

  ghost predicate AllSemaphores(m: Sched, buffer: seq<Oop>) { forall s | s in buffer :: IsSemaphore(m, s) }

  lemma {:induction false} DrainIsLegal(m: Sched, buffer: seq<Oop>)
    requires Inv(m) && AllSemaphores(m, buffer)
    ensures LegalRun(m, DrainOps(buffer))
    decreases |buffer|
  {
    hide Inv;
    if buffer != [] {
      var last, rest := buffer[|buffer| - 1], buffer[..|buffer| - 1];
      assert last in buffer;
      StillSemaphores(m, last, rest);
      DrainIsLegal(Step(m, DoSignal(last)), rest);
      assert DrainOps(buffer)[1..] == DrainOps(rest);
    }
  }

  lemma StillSemaphores(m: Sched, s: Oop, buffer: seq<Oop>)
    requires Inv(m) && IsSemaphore(m, s) && AllSemaphores(m, buffer)
    ensures AllSemaphores(Signal(m, s), buffer)
  {
    forall t | t in buffer
      ensures IsSemaphore(Signal(m, s), t)
    {
      SignalOnSemaphore(m, s, t);
    }
  }

  lemma DrainStep(m: Sched, buffer: seq<Oop>)
    requires Inv(m) && AllSemaphores(m, buffer) && buffer != []
    ensures var last, rest := buffer[|buffer| - 1], buffer[..|buffer| - 1];
            && IsSemaphore(m, last) && Inv(Signal(m, last)) && AllSemaphores(Signal(m, last), rest)
            && LegalRun(m, DrainOps(buffer)) && LegalRun(Signal(m, last), DrainOps(rest))
            && Run(m, DrainOps(buffer)) == Run(Signal(m, last), DrainOps(rest))
  {
    hide Inv;
    var last, rest := buffer[|buffer| - 1], buffer[..|buffer| - 1];
    assert last in buffer;
    DrainIsLegal(m, buffer);
    SignalKeeps(m, last);
    StillSemaphores(m, last, rest);
    DrainIsLegal(Signal(m, last), rest);
    assert DrainOps(buffer)[1..] == DrainOps(rest);
    assert Step(m, DoSignal(last)) == Signal(m, last);
  }
}
