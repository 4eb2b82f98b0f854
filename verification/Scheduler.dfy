/** The interpreter's process routines over linked lists, proved against
    SchedulerSpec. */
module Schedulers {
  import opened Basics
  import opened SchedulerSpec
  import P = ProcessSpec
  import C = ContextSpec
  import Chains
  import Contexts

  /** A queue: linked from its first process to its last. */
  ghost predicate Queue(first: Oop, last: Oop, next: map<Oop, Oop>, s: seq<Oop>) {
    Chains.Chained(next, NIL, first, s) && (s != [] ==> last == s[|s| - 1])
  }

  /** The links represent the queues, and only queued processes have a successor. */
  ghost predicate Links(first: map<Oop, Oop>, last: map<Oop, Oop>, next: map<Oop, Oop>, m: Sched) {
    && first.Keys == m.lists.Keys && last.Keys == m.lists.Keys && next.Keys == m.priority.Keys
    && (forall l | l in m.lists :: Queue(first[l], last[l], next, m.lists[l]))
    && (forall p | p in m.place && p in next && !m.place[p].Queued? :: next[p] == NIL)
  }

  lemma EmptyIffNil(first: map<Oop, Oop>, last: map<Oop, Oop>, next: map<Oop, Oop>, m: Sched, l: Oop)
    requires Links(first, last, next, m) && l in m.lists
    ensures l in first && (first[l] == NIL <==> m.lists[l] == [])
  {
    assert Queue(first[l], last[l], next, m.lists[l]);
    if m.lists[l] != [] {
      assert Chains.LinkAt(next, NIL, m.lists[l], 0);
    }
  }

  lemma QueuedOnly(m: Sched, p: Oop, l: Oop)
    requires Queues(m) && l in m.lists && p in m.lists[l]
    ensures p in m.place && m.place[p] == Queued(l)
  {
  }

  /** A process is on one list only ... */
  lemma OneList(m: Sched, p: Oop, l: Oop, k: Oop)
    requires Queues(m) && l in m.lists && k in m.lists && p in m.lists[l] && k != l
    ensures p !in m.lists[k]
  {
    hide Queues;
    QueuedOnly(m, p, l);
    if p in m.lists[k] {
      QueuedOnly(m, p, k);
    }
  }

  /** ... and if it is not queued, on none. */
  lemma NoList(m: Sched, p: Oop, k: Oop)
    requires Queues(m) && p in m.place && !m.place[p].Queued? && k in m.lists
    ensures p !in m.lists[k] && p != NIL && p in m.priority
  {
    if p in m.lists[k] {
      QueuedOnly(m, p, k);
    }
  }

  lemma ListIsDistinct(m: Sched, l: Oop)
    requires Queues(m) && l in m.lists
    ensures Distinct(m.lists[l])
  {
  }

  lemma RemoveFirstLinks(first: map<Oop, Oop>, last: map<Oop, Oop>, next: map<Oop, Oop>, m: Sched, l: Oop)
    requires Queues(m) && Links(first, last, next, m) && l in m.lists && m.lists[l] != []
    ensures l in first && l in last && first[l] == m.lists[l][0] && first[l] in next
    ensures var p := first[l];
            if last[l] == p then Links(first[l := NIL], last[l := NIL], next[p := NIL], RemoveFirst(m, l))
            else Links(first[l := next[p]], last, next[p := NIL], RemoveFirst(m, l))
  {
    hide Queues, Chains.Chained;
    var s, p := m.lists[l], m.lists[l][0];
    ListIsDistinct(m, l);
    assert Queue(first[l], last[l], next, s);
    Chains.Tail(next, NIL, first[l], s);
    forall k | k in m.lists && k != l
      ensures Queue(first[k], last[k], next[p := NIL], m.lists[k])
    {
      OneList(m, p, l, k);
      Chains.Elsewhere(next, NIL, first[k], m.lists[k], p, NIL);
    }
    EmptyChain(next[p := NIL]);
  }

  lemma EmptyChain(next: map<Oop, Oop>)
    ensures Chains.Chained(next, NIL, NIL, [])
  {
  }

  lemma AddLastLinks(first: map<Oop, Oop>, last: map<Oop, Oop>, next: map<Oop, Oop>, m: Sched, p: Oop, l: Oop)
    requires Queues(m) && Links(first, last, next, m) && l in m.lists && p in m.place && !m.place[p].Queued?
    ensures l in first && l in last
    ensures if first[l] == NIL then Links(first[l := p], last[l := p], next, AddLast(m, p, l))
            else last[l] in next && Links(first, last[l := p], next[last[l] := p], AddLast(m, p, l))
  {
    hide Queues, Chains.Chained;
    EmptyIffNil(first, last, next, m, l);
    var s := m.lists[l];
    assert Queue(first[l], last[l], next, s);
    NoList(m, p, l);
    ListIsDistinct(m, l);
    Chains.Append(next, NIL, first[l], s, p);
    if s != [] {
      var q := last[l];
      assert q in s;
      LastIsLinked(first[l], next, s);
      forall k | k in m.lists && k != l
        ensures Queue(first[k], last[k], next[q := p], m.lists[k])
      {
        OneList(m, q, l, k);
        Chains.Elsewhere(next, NIL, first[k], m.lists[k], q, p);
      }
      QueuedOnly(m, q, l);
    }
  }

  lemma LastIsLinked(first: Oop, next: map<Oop, Oop>, s: seq<Oop>)
    requires Chains.Chained(next, NIL, first, s) && s != []
    ensures s[|s| - 1] in next
  {
    assert Chains.LinkAt(next, NIL, s, |s| - 1);
  }

  lemma TransferLinks(first: map<Oop, Oop>, last: map<Oop, Oop>, next: map<Oop, Oop>, m: Sched, p: Oop)
    requires Queues(m) && Links(first, last, next, m) && p in m.place && m.place[p] == Suspended
    ensures Queues(TransferTo(m, p)) && Links(first, last, next, TransferTo(m, p))
  {
    hide Queues, Queue;
    TransferQueues(m, p);
  }

  lemma LinksIgnoreCounts(first: map<Oop, Oop>, last: map<Oop, Oop>, next: map<Oop, Oop>, m: Sched, r: Sched)
    requires Links(first, last, next, m) && r == m.(excess := r.excess)
    ensures Links(first, last, next, r)
  {
  }

  lemma SuspendingLinks(first: map<Oop, Oop>, last: map<Oop, Oop>, next: map<Oop, Oop>, m: Sched)
    requires Inv(m) && Links(first, last, next, m)
    ensures Links(first, last, next, m.(place := m.place[m.active := Suspended]))
  {
    hide Queue, Queues;
  }

  lemma RemoveHighestKeeps(m: Sched) returns (l: Oop)
    requires Queues(m) && SomeReady(m)
    ensures l == m.readyLists[HighestReady(m, |m.readyLists|) - 1] && l in m.lists && m.lists[l] != []
    ensures Queues(RemoveFirst(m, l)) && m.lists[l][0] in m.place && RemoveFirst(m, l).place[m.lists[l][0]] == Suspended
  {
    l := m.readyLists[HighestReady(m, |m.readyLists|) - 1];
    RemoveFirstKeeps(m, l);
  }

  /** Handing over to the first process of the highest ready list. */
  lemma SuspendActiveParts(m: Sched) returns (l: Oop)
    requires Queues(m) && SomeReady(m) && forall p | p in m.place :: m.place[p] != Active
    ensures l == m.readyLists[HighestReady(m, |m.readyLists|) - 1] && l in m.lists && m.lists[l] != []
    ensures m.lists[l][0] in m.place && RemoveFirst(m, l).place.Keys == m.place.Keys
    ensures Queues(RemoveFirst(m, l)) && RemoveFirst(m, l).place[m.lists[l][0]] == Suspended
    ensures var r := SuspendActive(m);
            && r == TransferTo(RemoveFirst(m, l), m.lists[l][0]) && r.active == m.lists[l][0]
            && Queues(r) && Fair(r)
  {
    hide Queues, Fair, HighestReady;
    SuspendActiveKeeps(m);
    l := RemoveHighestKeeps(m);
  }

  lemma HighestReadyFound(first: map<Oop, Oop>, last: map<Oop, Oop>, next: map<Oop, Oop>, m: Sched, n: nat)
    requires Queues(m) && Links(first, last, next, m) && 0 < n <= |m.readyLists|
    requires HighestReady(m, n) > 0
    ensures m.readyLists[n - 1] in first
    ensures if first[m.readyLists[n - 1]] != NIL then HighestReady(m, n) == n
            else HighestReady(m, n - 1) == HighestReady(m, n) && 1 < n
  {
    EmptyIffNil(first, last, next, m, m.readyLists[n - 1]);
  }

  function Plus(references: map<Oop, int>, p: Oop): map<Oop, int> {
    if p in references then references[p := references[p] + 1] else references
  }

  function Minus(references: map<Oop, int>, p: Oop): map<Oop, int> {
    if p in references then references[p := references[p] - 1] else references
  }

  /** One reference on `p`, if it is a process at all, and none on any other. */
  ghost predicate OneReference(references: map<Oop, int>, p: Oop) {
    forall q | q in references :: references[q] == if q == p then 1 else 0
  }

  lemma HandOverBalance(references: map<Oop, int>, held: Oop, p: Oop)
    requires OneReference(references, held) && p in references && (held in references || held == NIL) && p != NIL
    requires NIL !in references
    ensures var r := Minus(Plus(Minus(Plus(references, p), held), p), p);
            r.Keys == references.Keys && OneReference(r, p)
    ensures OneReference(Plus(Minus(references, held), p), p)
    ensures Plus(references, p).Keys == references.Keys && Minus(Plus(references, p), p) == references
    ensures Plus(Minus(Plus(references, p), held), p).Keys == references.Keys
  {
  }

  lemma LastReference(references: map<Oop, int>, p: Oop)
    requires OneReference(references, p) && NIL !in references
    ensures OneReference(Minus(references, p), NIL) && Minus(references, p).Keys == references.Keys
  {
  }

  /** The machine with another value on top of the stack. */
  ghost function ReplacedTop(s: C.Machine, v: C.Value): C.Machine
    requires s.regs.activeContext in s.memory
    requires 0 <= s.regs.stackPointer < |s.memory[s.regs.activeContext]|
  {
    var c, sp := s.regs.activeContext, s.regs.stackPointer;
    s.(memory := s.memory[c := s.memory[c][sp := v]])
  }

  class Scheduler {
    // object memory: the scheduler, its lists, semaphores and processes
    const processLists: seq<Oop>
    const priority: map<Oop, int>
    var firstLink: map<Oop, Oop>
    var lastLink: map<Oop, Oop>
    var excessSignals: map<Oop, int>
    var nextLink: map<Oop, Oop>
    var myList: map<Oop, Oop>
    var activeProcessField: Oop
    /** References the interpreter itself holds on a process. */
    var references: map<Oop, int>

    var suspendedContext: map<Oop, Oop>

    // registers
    const contexts: Contexts.ContextRegisters
    var newProcessWaiting: bool
    var newProcess: Oop
    var successFlag: bool
    const semaphoreList: array<Oop>
    var semaphoreIndex: int

    /** The queues this memory represents. */
    ghost var m: Sched

    /** Start-up: the active process is the one the snapshot names, no switch is
        pending, no signal is buffered. */
    constructor (ghost m: Sched, processLists: seq<Oop>, priority: map<Oop, int>,
                 firstLink: map<Oop, Oop>, lastLink: map<Oop, Oop>, excessSignals: map<Oop, int>,
                 nextLink: map<Oop, Oop>, myList: map<Oop, Oop>, active: Oop,
                 suspendedContext: map<Oop, Oop>, memory: C.Memory)
      requires Inv(m) && Links(firstLink, lastLink, nextLink, m) && m.active == active
      requires m.readyLists == processLists && m.priority == priority && m.excess == excessSignals
      requires active in suspendedContext && P.Resumable(memory, suspendedContext[active])
      ensures Valid() && Buffering() && semaphoreIndex == -1 && !newProcessWaiting && this.m == m
      ensures activeProcessField == active && this.suspendedContext == suspendedContext
      ensures fresh(contexts) && fresh(semaphoreList)
      ensures contexts.State() == C.Machine(memory, C.Fetched(memory, suspendedContext[active]))
    {
      this.m := m;
      this.processLists, this.priority := processLists, priority;
      this.firstLink, this.lastLink, this.excessSignals := firstLink, lastLink, excessSignals;
      this.nextLink, this.myList, this.suspendedContext := nextLink, myList, suspendedContext;
      activeProcessField := active;
      references := map p | p in priority :: 0;
      newProcessWaiting, newProcess, successFlag := false, NIL, true;
      semaphoreList := new Oop[4096];
      semaphoreIndex := -1;
      contexts := new Contexts.ContextRegisters(memory, suspendedContext[active]);
    }

    /** The linked lists represent the queues. */
    ghost predicate Linked()
      reads this`firstLink, this`lastLink, this`excessSignals, this`nextLink, this`m
    {
      && Queues(m) && Links(firstLink, lastLink, nextLink, m)
      && m.readyLists == processLists && m.priority == priority && m.excess == excessSignals
    }

    /** The registers name the active process; a new process is held by one reference. */
    ghost predicate Registered()
      reads this`m, this`newProcessWaiting, this`newProcess, this`activeProcessField, this`references
    {
      && (newProcessWaiting <==> newProcess != NIL)
      && (newProcess != NIL ==> newProcess in references)
      && m.active == (if newProcessWaiting then newProcess else activeProcessField)
      && references.Keys == priority.Keys
    }

    ghost predicate Valid()
      reads this
    {
      Linked() && Registered() && OneReference(references, newProcess) && Fair(m)
    }

    lemma PartsOfValid()
      requires Valid()
      ensures Linked() && Registered() && OneReference(references, newProcess) && Fair(m)
    {
    }

    lemma AllValid()
      requires Linked() && Registered() && OneReference(references, newProcess) && Fair(m)
      ensures Valid()
    {
    }

    method IncreaseReferencesTo(p: Oop)
      requires p in references
      modifies this`references
      ensures references == Plus(old(references), p)
    {
      references := references[p := references[p] + 1];
    }

    method DecreaseReferencesTo(p: Oop)
      requires p in references
      modifies this`references
      ensures references == Minus(old(references), p)
    {
      references := references[p := references[p] - 1];
    }

    predicate IsEmptyList(l: Oop)
      reads this`firstLink
      requires l in firstLink
    {
      firstLink[l] == NIL
    }

    /** The caller owns a reference to the process returned. */
    method RemoveFirstLinkOfList(l: Oop) returns (first: Oop)
      requires Linked() && l in m.lists && m.lists[l] != [] && references.Keys == priority.Keys
      modifies this`firstLink, this`lastLink, this`nextLink, this`references, this`m
      ensures Linked() && m == RemoveFirst(old(m), l) && first == old(m).lists[l][0]
      ensures first in references && references == Plus(old(references), first)
    {
      hide Queues, Links;
      RemoveFirstKeeps(m, l);
      RemoveFirstLinks(firstLink, lastLink, nextLink, m, l);
      KeysOfLinks();
      first := firstLink[l];
      IncreaseReferencesTo(first);
      var last := lastLink[l];
      if last == first {
        firstLink := firstLink[l := NIL];
        lastLink := lastLink[l := NIL];
      } else {
        var next := nextLink[first];
        firstLink := firstLink[l := next];
      }
      nextLink := nextLink[first := NIL];
      m := RemoveFirst(m, l);
    }

    lemma KeysOfLinks()
      requires Linked()
      ensures firstLink.Keys == m.lists.Keys && lastLink.Keys == m.lists.Keys && nextLink.Keys == priority.Keys
      ensures m.place.Keys == priority.Keys && NIL !in priority
      ensures Queues(m) && m.priority == priority && m.readyLists == processLists
    {
    }

    method AddLastLinkToList(aLink: Oop, aLinkedList: Oop)
      requires Linked() && aLink in m.place && !m.place[aLink].Queued? && aLinkedList in m.lists
      requires Queues(AddLast(m, aLink, aLinkedList))
      modifies this`firstLink, this`lastLink, this`nextLink, this`myList, this`m
      ensures Linked() && m == AddLast(old(m), aLink, aLinkedList)
      ensures myList == old(myList)[aLink := aLinkedList]
    {
      hide Queues, Links;
      AddLastLinks(firstLink, lastLink, nextLink, m, aLink, aLinkedList);
      if IsEmptyList(aLinkedList) {
        firstLink := firstLink[aLinkedList := aLink];
      } else {
        var last := lastLink[aLinkedList];
        nextLink := nextLink[last := aLink];
      }
      lastLink := lastLink[aLinkedList := aLink];
      myList := myList[aLink := aLinkedList];
      m := AddLast(m, aLink, aLinkedList);
    }

    /** The caller owns a reference to the process returned. */
    method WakeHighestPriority() returns (p: Oop)
      requires Linked() && SomeReady(m) && references.Keys == priority.Keys
      modifies this`firstLink, this`lastLink, this`nextLink, this`references, this`m
      ensures var l := old(m).readyLists[HighestReady(old(m), |old(m).readyLists|) - 1];
              && l in old(m).lists && old(m).lists[l] != []
              && Linked() && m == RemoveFirst(old(m), l) && p == old(m).lists[l][0]
      ensures p in references && references == Plus(old(references), p)
    {
      hide Links;
      ghost var h := HighestReady(m, |m.readyLists|);
      var priority := |processLists|;
      while true
        invariant Linked() && m == old(m) && references == old(references)
        invariant 0 < h <= priority <= |processLists| && HighestReady(m, priority) == h
        decreases priority
      {
        HighestReadyFound(firstLink, lastLink, nextLink, m, priority);
        if !IsEmptyList(processLists[priority - 1]) {
          break;
        }
        priority := priority - 1;
      }
      p := RemoveFirstLinkOfList(processLists[priority - 1]);
    }

    method TransferTo(p: Oop)
      requires Linked() && p in priority && m.place[p] == Suspended
      requires references.Keys == priority.Keys && (newProcess != NIL ==> newProcess in references)
      modifies this`newProcessWaiting, this`newProcess, this`references, this`m
      ensures Linked() && m == SchedulerSpec.TransferTo(old(m), p)
      ensures newProcessWaiting && newProcess == p
      ensures references == Plus(Minus(old(references), old(newProcess)), p)
    {
      hide Queues, Links;
      KeysOfLinks();
      TransferLinks(firstLink, lastLink, nextLink, m, p);
      newProcessWaiting := true;
      if newProcess != NIL {
        DecreaseReferencesTo(newProcess);
      }
      newProcess := p;
      IncreaseReferencesTo(newProcess);
      m := SchedulerSpec.TransferTo(m, p);
    }

    /** The process that will run next. */
    function ActiveProcess(): Oop
      reads this`newProcessWaiting, this`newProcess, this`activeProcessField
    {
      if newProcessWaiting then newProcess else activeProcessField
    }

    /** Hands over to a process the caller owns a reference to, and gives that up. */
    method HandOver(aProcess: Oop, ghost owned: map<Oop, int>)
      requires Linked() && aProcess in priority && m.place[aProcess] == Suspended
      requires references == Plus(owned, aProcess) && OneReference(owned, newProcess)
      requires owned.Keys == priority.Keys && (newProcess != NIL ==> newProcess in owned)
      modifies this`newProcessWaiting, this`newProcess, this`references, this`m
      ensures Linked() && Registered() && OneReference(references, newProcess)
      ensures m == SchedulerSpec.TransferTo(old(m), aProcess) && newProcess == aProcess
    {
      hide Scheduler.Linked, Plus, Minus, OneReference;
      KeysOfLinks();
      HandOverBalance(owned, newProcess, aProcess);
      TransferTo(aProcess);
      DecreaseReferencesTo(aProcess);
    }

    method SuspendActive()
      requires Linked() && SomeReady(m) && (forall p | p in m.place :: m.place[p] != Active)
      requires newProcessWaiting <==> newProcess != NIL
      requires references.Keys == priority.Keys && (newProcess != NIL ==> newProcess in references)
      requires OneReference(references, newProcess)
      modifies this`firstLink, this`lastLink, this`nextLink, this`references, this`m
      modifies this`newProcessWaiting, this`newProcess
      ensures Valid() && m == SchedulerSpec.SuspendActive(old(m))
    {
      hide *;
      ghost var before, owned := m, references;
      KeysOfLinks();
      ghost var l := SuspendActiveParts(before);
      var aProcess := WakeHighestPriority();
      KeysOfLinks();
      HandOver(aProcess, owned);
      AllValid();
    }

    method Sleep(aProcess: Oop)
      requires Linked() && aProcess in m.place && !m.place[aProcess].Queued? && aProcess in priority
      modifies this`firstLink, this`lastLink, this`nextLink, this`myList, this`m
      ensures Linked() && m == AddLast(old(m), aProcess, ReadyList(old(m), aProcess))
    {
      var processList := processLists[priority[aProcess] - 1];
      AddLastKeeps(m, aProcess, processList);
      hide Links, Placed, Counted;
      AddLastLinkToList(aProcess, processList);
    }

    lemma Resuming(aProcess: Oop)
      requires Linked() && Registered() && Fair(m) && aProcess in priority && m.place[aProcess] == Suspended
      ensures ActiveProcess() == m.active && m.active in priority && m.active in m.place && m.active != aProcess
      ensures m.place[m.active] == Active && HasPriority(m, m.active) && HasPriority(m, aProcess)
      ensures var a, r := m.active, SchedulerSpec.Resume(m, aProcess);
              && Fair(r) && r.active == (if priority[aProcess] > priority[a] then aProcess else a)
              && r == if priority[aProcess] > priority[a]
                      then SchedulerSpec.TransferTo(AddLast(m, a, ReadyList(m, a)), aProcess)
                      else AddLast(m, aProcess, ReadyList(m, aProcess))
      ensures AddLast(m, m.active, ReadyList(m, m.active)).place[aProcess] == Suspended
    {
      hide Links, Placed, Counted;
      ResumeKeeps(m, aProcess);
    }

    method Resume(aProcess: Oop)
      requires Linked() && Registered() && Fair(m) && aProcess in priority && m.place[aProcess] == Suspended
      modifies this`firstLink, this`lastLink, this`nextLink, this`myList, this`references, this`m
      modifies this`newProcessWaiting, this`newProcess
      ensures Linked() && Registered() && Fair(m) && m == SchedulerSpec.Resume(old(m), aProcess)
      ensures if priority[aProcess] > priority[old(m).active]
              then newProcess == aProcess && references == Plus(Minus(old(references), old(newProcess)), aProcess)
              else newProcess == old(newProcess) && references == old(references)
    {
      hide Scheduler.Linked, Fair, Queues, SchedulerSpec.Resume, AddLast, SchedulerSpec.TransferTo;
      KeysOfLinks();
      Resuming(aProcess);
      var theActiveProcess := ActiveProcess();
      var activePriority := priority[theActiveProcess];
      var newPriority := priority[aProcess];
      if newPriority > activePriority {
        Sleep(theActiveProcess);
        TransferTo(aProcess);
      } else {
        Sleep(aProcess);
      }
    }

    lemma Signalling(s: Oop)
      requires Valid() && IsSemaphore(m, s) && s in m.lists && m.lists[s] != []
      ensures var p, r := m.lists[s][0], RemoveFirst(m, s);
              && p in priority && p != NIL && Inv(r) && r.active == m.active && r.place[p] == Suspended
              && Signal(m, s) == SchedulerSpec.Resume(r, p) && SchedulerSpec.Resume(r, p).priority == priority
      ensures Inv(m)
    {
      RemoveFirstKeeps(m, s);
    }

    /** Signal a semaphore somebody waits on. */
    method SignalWaiting(aSemaphore: Oop)
      requires Valid() && IsSemaphore(m, aSemaphore) && m.lists[aSemaphore] != []
      modifies this`firstLink, this`lastLink, this`nextLink, this`myList, this`references, this`m
      modifies this`newProcessWaiting, this`newProcess
      ensures Valid() && m == Signal(old(m), aSemaphore)
    {
      hide Scheduler.Linked, Scheduler.Valid, Queues, OneReference, Fair, SchedulerSpec.Resume, Signal, RemoveFirst;
      hide Plus, Minus;
      PartsOfValid();
      KeysOfLinks();
      Signalling(aSemaphore);
      HandOverBalance(references, newProcess, m.lists[aSemaphore][0]);
      // the process returned must be released
      var aProcess := RemoveFirstLinkOfList(aSemaphore);
      Resume(aProcess);
      DecreaseReferencesTo(aProcess);
      AllValid();
    }

    /** Stores a count of signals. */
    method StoreExcess(aSemaphore: Oop, n: int)
      requires Linked() && aSemaphore in excessSignals && Queues(m.(excess := m.excess[aSemaphore := n]))
      modifies this`excessSignals, this`m
      ensures Linked() && m == old(m).(excess := old(m).excess[aSemaphore := n])
    {
      hide Links, Queues;
      LinksIgnoreCounts(firstLink, lastLink, nextLink, m, m.(excess := m.excess[aSemaphore := n]));
      excessSignals := excessSignals[aSemaphore := n];
      m := m.(excess := m.excess[aSemaphore := n]);
    }

    lemma SignalsKept(s: Oop)
      requires Valid() && IsSemaphore(m, s)
      ensures Inv(m) && Inv(Signal(m, s)) && s in excessSignals && excessSignals[s] == m.excess[s]
      ensures s in m.lists && s in firstLink && (firstLink[s] == NIL <==> m.lists[s] == [])
      ensures m.excess[s] <= MAX_SMALL_INTEGER && (m.lists[s] != [] ==> m.excess[s] == 0)
      ensures m.lists[s] == [] ==>
                Signal(m, s) ==
                if m.excess[s] < MAX_SMALL_INTEGER then m.(excess := m.excess[s := m.excess[s] + 1]) else m
    {
      hide Links, Placed;
      SignalKeeps(m, s);
      EmptyIffNil(firstLink, lastLink, nextLink, m, s);
      Known(m, s);
    }

    method SynchronousSignal(aSemaphore: Oop)
      requires Valid() && IsSemaphore(m, aSemaphore)
      modifies this`firstLink, this`lastLink, this`nextLink, this`myList, this`references, this`m
      modifies this`newProcessWaiting, this`newProcess, this`excessSignals, this`successFlag
      ensures Valid() && m == Signal(old(m), aSemaphore)
      ensures successFlag ==
              (old(successFlag) && !(old(m).lists[aSemaphore] == [] && old(m).excess[aSemaphore] == MAX_SMALL_INTEGER))
    {
      hide Scheduler.Linked, Scheduler.Valid, OneReference, Queues, Fair, Signal;
      PartsOfValid();
      SignalsKept(aSemaphore);
      if IsEmptyList(aSemaphore) {
        var excess := excessSignals[aSemaphore];
        if excess + 1 <= MAX_SMALL_INTEGER {
          StoreExcess(aSemaphore, excess + 1);
        } else {
          successFlag := false;
        }
        AllValid();
      } else {
        SignalWaiting(aSemaphore);
      }
    }

    /** `primitiveResume`, for a process that is suspended. */
    method PrimitiveResume(thisReceiver: Oop)
      requires Valid() && thisReceiver in priority && m.place[thisReceiver] == Suspended
      modifies this`firstLink, this`lastLink, this`nextLink, this`myList, this`references, this`m
      modifies this`newProcessWaiting, this`newProcess
      ensures Valid() && m == SchedulerSpec.Resume(old(m), thisReceiver)
    {
      hide Scheduler.Linked, Scheduler.Valid, Queues, Fair, OneReference, SchedulerSpec.Resume;
      PartsOfValid();
      KeysOfLinks();
      HandOverBalance(references, newProcess, thisReceiver);
      Resume(thisReceiver);
      AllValid();
    }

    lemma Waits(s: Oop)
      requires Valid() && IsSemaphore(m, s) && CanWait(m, s)
      ensures Inv(m) && Inv(Wait(m, s)) && s in m.lists && s in excessSignals && excessSignals[s] == m.excess[s]
      ensures ActiveProcess() == m.active && m.active in m.place && !m.place[m.active].Queued?
      ensures if 0 < m.excess[s] then Wait(m, s) == m.(excess := m.excess[s := m.excess[s] - 1])
              else && Queues(AddLast(m, m.active, s)) && SomeReady(AddLast(m, m.active, s))
                   && (forall p | p in m.place :: AddLast(m, m.active, s).place[p] != Active)
                   && AddLast(m, m.active, s).place.Keys == m.place.Keys
                   && Wait(m, s) == SchedulerSpec.SuspendActive(AddLast(m, m.active, s))
    {
      hide Links, Placed;
      WaitKeeps(m, s);
      Known(m, s);
      if m.excess[s] <= 0 {
        WaitingKeeps(m, s);
      }
    }

    method PrimitiveWait(thisReceiver: Oop)
      requires Valid() && IsSemaphore(m, thisReceiver) && CanWait(m, thisReceiver)
      modifies this`firstLink, this`lastLink, this`nextLink, this`myList, this`references, this`m
      modifies this`newProcessWaiting, this`newProcess, this`excessSignals
      ensures Valid() && m == Wait(old(m), thisReceiver)
    {
      hide Scheduler.Linked, Scheduler.Valid, OneReference, Queues, Fair, Wait, AddLast, SomeReady, CanWait;
      hide SchedulerSpec.SuspendActive;
      PartsOfValid();
      Waits(thisReceiver);
      var excess := excessSignals[thisReceiver];
      if excess > 0 {
        StoreExcess(thisReceiver, excess - 1);
        AllValid();
      } else {
        AddLastLinkToList(ActiveProcess(), thisReceiver);
        SuspendActive();
      }
    }

    /** The active process is one no more, and not yet anything else. */
    ghost method LeaveActive()
      requires Linked() && Inv(m) && SomeReady(m)
      modifies this`m
      ensures Linked() && m == old(m).(place := old(m).place[old(m).active := Suspended])
      ensures SomeReady(m) && forall p | p in m.place :: m.place[p] != Active
      ensures SchedulerSpec.SuspendActive(m) == Suspend(old(m))
    {
      hide Links, WellFormed, Placed, Counted;
      SuspendingKeeps(m);
      SuspendingLinks(firstLink, lastLink, nextLink, m);
      m := m.(place := m.place[m.active := Suspended]);
    }

    /** Suspends the receiver, on top of the stack, if it is the active process, and leaves
        nil there; fails for any other. */
    method PrimitiveSuspend()
      requires Valid() && contexts.activeContext in contexts.memory
      requires 0 <= contexts.stackPointer < |contexts.memory[contexts.activeContext]|
      requires contexts.StackTop() == C.Ref(m.active) ==> SomeReady(m)
      modifies this`firstLink, this`lastLink, this`nextLink, this`references, this`m
      modifies this`newProcessWaiting, this`newProcess, this`successFlag, contexts`stackPointer, contexts`memory
      ensures Valid()
      ensures successFlag == (old(successFlag) && old(contexts.StackTop()) == C.Ref(old(m).active))
      ensures m == if successFlag then Suspend(old(m)) else old(m)
      ensures contexts.State() ==
              if successFlag then ReplacedTop(old(contexts.State()), C.NIL_VALUE) else old(contexts.State())
    {
      hide Scheduler.Linked, Scheduler.Valid, OneReference, Queues, Fair, SomeReady, Suspend;
      hide SchedulerSpec.SuspendActive;
      PartsOfValid();
      KeysOfLinks();
      successFlag := successFlag && contexts.StackTop() == C.Ref(ActiveProcess());
      if successFlag {
        var _ := contexts.PopStack();
        contexts.PushValue(C.NIL_VALUE);
        LeaveActive();
        SuspendActive();
      } else {
        AllValid();
      }
    }

    ghost predicate Buffering()
      reads this`semaphoreIndex, this`m, semaphoreList
    {
      -1 <= semaphoreIndex < semaphoreList.Length && AllSemaphores(m, Buffer())
    }

    /** The signals not yet delivered, in the order they arrived. */
    ghost function Buffer(): seq<Oop>
      reads this`semaphoreIndex, semaphoreList
      requires -1 <= semaphoreIndex < semaphoreList.Length
    {
      semaphoreList[..semaphoreIndex + 1]
    }

    /** There has to be room in the buffer. */
    method AsynchronousSignal(aSemaphore: Oop)
      requires Buffering() && semaphoreIndex + 1 < semaphoreList.Length && IsSemaphore(m, aSemaphore)
      modifies this`semaphoreIndex, semaphoreList
      ensures Buffering() && Buffer() == old(Buffer()) + [aSemaphore]
    {
      semaphoreIndex := semaphoreIndex + 1;
      semaphoreList[semaphoreIndex] := aSemaphore;
      assert Buffer() == old(Buffer()) + [aSemaphore];
    }

    method DeliverLast()
      requires Valid() && Buffering() && semaphoreIndex >= 0
      modifies this`firstLink, this`lastLink, this`nextLink, this`myList, this`references, this`m
      modifies this`newProcessWaiting, this`newProcess, this`excessSignals, this`successFlag, this`semaphoreIndex
      ensures Valid() && Inv(m) && Buffering() && semaphoreIndex == old(semaphoreIndex) - 1
      ensures Inv(old(m)) && LegalRun(old(m), DrainOps(old(Buffer()))) && LegalRun(m, DrainOps(Buffer()))
      ensures Run(old(m), DrainOps(old(Buffer()))) == Run(m, DrainOps(Buffer()))
    {
      hide Links, Queues, Fair, OneReference, Run, LegalRun, DrainOps;
      InvOf();
      DrainStep(m, Buffer());
      assert Buffer()[..|Buffer()| - 1] == semaphoreList[..semaphoreIndex];
      SynchronousSignal(semaphoreList[semaphoreIndex]);
      semaphoreIndex := semaphoreIndex - 1;
    }

    method DrainSignals()
      requires Valid() && Buffering()
      modifies this`firstLink, this`lastLink, this`nextLink, this`myList, this`references, this`m
      modifies this`newProcessWaiting, this`newProcess, this`excessSignals, this`successFlag, this`semaphoreIndex
      ensures Valid() && Buffering() && semaphoreIndex == -1
      ensures LegalRun(old(m), DrainOps(old(Buffer()))) && m == Run(old(m), DrainOps(old(Buffer())))
    {
      hide Valid, Inv;
      InvOf();
      DrainIsLegal(m, Buffer());
      while semaphoreIndex >= 0
        invariant Valid() && Inv(m) && Buffering()
        invariant LegalRun(old(m), DrainOps(old(Buffer())))
        invariant LegalRun(m, DrainOps(Buffer())) && Run(m, DrainOps(Buffer())) == Run(old(m), DrainOps(old(Buffer())))
        decreases semaphoreIndex
      {
        DeliverLast();
      }
    }

    lemma InvOf()
      requires Valid()
      ensures Inv(m)
    {
    }

    ghost predicate Saved()
      reads this`suspendedContext, this`activeProcessField, contexts
    {
      P.SavedIn(contexts.State(), suspendedContext, activeProcessField) && suspendedContext.Keys == priority.Keys
    }

    ghost function Processes(): P.View
      reads this`suspendedContext, this`activeProcessField, contexts
      requires Saved()
    {
      P.ViewIn(contexts.State(), suspendedContext, activeProcessField)
    }

    /** The world of processes, given which contexts are whose. */
    ghost function WorldOf(chains: map<Oop, set<Oop>>): P.World
      reads this`suspendedContext, this`activeProcessField, contexts
    {
      P.World(contexts.State(), activeProcessField, suspendedContext, chains)
    }

    /** The switch of processes p, as a step of the world. */
    twostate predicate HasSwitchedTo(p: Oop)
      reads this`suspendedContext, this`activeProcessField, contexts
    {
      forall chains | P.Inv(old(WorldOf(chains))) && p in old(suspendedContext) ::
        WorldOf(chains) == P.AfterSwitch(old(WorldOf(chains)), p)
    }

    /** The registers of the old process are saved and those of the new one loaded. */
    method SwitchTo(p: Oop)
      requires Saved() && p in priority
      modifies this`suspendedContext, this`activeProcessField, contexts
      ensures Saved() && Processes() == P.Switched(old(Processes()), p) && activeProcessField == p
      ensures HasSwitchedTo(p)
    {
      hide P.SavedIn, P.ViewIn, P.Switched;
      P.SwitchIsLossless(contexts.State(), suspendedContext, activeProcessField, p);
      var theActiveProcess := activeProcessField;
      suspendedContext := suspendedContext[theActiveProcess := contexts.activeContext];
      activeProcessField := p;
      contexts.NewActiveContext(suspendedContext[p]);
    }

    lemma NewIsKnown()
      requires Valid()
      ensures m.active in priority
    {
    }

    lemma RunningOf()
      requires Saved()
      ensures P.Switched(Processes(), activeProcessField) == Processes()
    {
    }

    /** The pending switch, if there is one. */
    method SwitchIfWaiting()
      requires Valid() && Saved()
      modifies this`newProcessWaiting, this`newProcess, this`references
      modifies this`suspendedContext, this`activeProcessField, contexts
      ensures Valid() && Saved() && !newProcessWaiting && activeProcessField == m.active
              && OneReference(references, NIL)
      ensures Processes() == P.Switched(old(Processes()), m.active)
      ensures m.active != old(activeProcessField) ==> HasSwitchedTo(m.active)
    {
      hide P.Inv, P.AfterSwitch, P.SavedIn, P.ViewIn, Scheduler.Linked, Scheduler.Valid, Fair, OneReference, Minus;
      hide P.Switched, Queues;
      PartsOfValid();
      KeysOfLinks();
      LastReference(references, newProcess);
      NewIsKnown();
      RunningOf();
      if newProcessWaiting {
        newProcessWaiting := false;
        SwitchTo(newProcess);
        DecreaseReferencesTo(newProcess);
        newProcess := NIL;
      }
      AllValid();
    }

    /** Before every bytecode: deliver buffered signals, then switch if a switch is
        pending. */
    method CheckProcessSwitch()
      requires Valid() && Buffering() && Saved()
      modifies this`firstLink, this`lastLink, this`nextLink, this`myList, this`references, this`m
      modifies this`newProcessWaiting, this`newProcess, this`excessSignals, this`successFlag, this`semaphoreIndex
      modifies this`suspendedContext, this`activeProcessField, contexts
      ensures Valid() && Buffering() && Saved() && semaphoreIndex == -1
      ensures LegalRun(old(m), DrainOps(old(Buffer()))) && m == Run(old(m), DrainOps(old(Buffer())))
      ensures !newProcessWaiting && activeProcessField == m.active && OneReference(references, NIL)
      ensures Processes() == P.Switched(old(Processes()), m.active)
      ensures m.active != old(activeProcessField) ==> HasSwitchedTo(m.active)
    {
      hide P.Inv, P.AfterSwitch, P.SavedIn, P.ViewIn, Links, Queues, Fair, LegalRun, Run, OneReference, P.Switched;
      DrainSignals();
      SwitchIfWaiting();
    }
  }
}
