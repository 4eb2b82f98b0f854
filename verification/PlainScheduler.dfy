/** The scheduler's operations in plain terms: who runs, and what happens to which queue. */
module PlainScheduler {
  import opened Basics
  import opened SchedulerSpec

  /** The ready list of a process: that of its priority, counted from 1. */
  lemma ReadyListByNumber(m: Sched, p: Oop)
    requires Inv(m) && p in m.priority
    ensures 1 <= m.priority[p] <= |m.readyLists| && ReadyList(m, p) == m.readyLists[m.priority[p] - 1]
    ensures ReadyList(m, p) in m.lists
  {
  }

  /** A process that is resumed runs at once exactly if its priority is higher than the active
      process's, which then goes to the end of its own ready list; otherwise the resumed one
      goes to the end of its. */
  lemma ResumeByQueues(m: Sched, p: Oop)
    requires Inv(m) && p in m.priority && m.place[p] == Suspended
    ensures m.active in m.priority
    ensures var q := if m.priority[p] > m.priority[m.active] then m.active else p;
            && 1 <= m.priority[q] <= |m.readyLists|
            && var l := m.readyLists[m.priority[q] - 1];
               && l in m.lists
               && Resume(m, p) == m.(active := if q == p then m.active else p,
                                     lists := m.lists[l := m.lists[l] + [q]],
                                     place := if q == p then m.place[p := Queued(l)]
                                              else m.place[q := Queued(l)][p := Active])
  {
    ReadyListByNumber(m, p);
    ReadyListByNumber(m, m.active);
    hide Placed, Counted, WellFormed;
  }

  /** No process is ready exactly if all ready lists are empty; otherwise the highest that is
      not gives up its first process, which becomes active. */
  lemma SuspendActiveByQueues(m: Sched, h: nat)
    requires Queues(m) && h <= |m.readyLists|
    requires forall i | 0 <= i < |m.readyLists| :: m.readyLists[i] in m.lists
    requires forall i | h <= i < |m.readyLists| :: m.lists[m.readyLists[i]] == []
    requires h > 0 ==> m.lists[m.readyLists[h - 1]] != []
    ensures SomeReady(m) <==> h > 0
    ensures h > 0 ==>
              var l := m.readyLists[h - 1];
              var p := m.lists[l][0];
              SuspendActive(m) == m.(active := p, lists := m.lists[l := m.lists[l][1..]], place := m.place[p := Active])
  {
    assert HighestReady(m, |m.readyLists|) == h;
    hide Placed, Counted;
    if h > 0 {
      var p := m.lists[m.readyLists[h - 1]][0];
      assert m.place[p := Suspended][p := Active] == m.place[p := Active];
    }
  }

  /** A signal is counted, up to 16383, if nobody waits; otherwise it resumes the first of
      those who wait. */
  lemma SignalByQueues(m: Sched, s: Oop)
    requires Inv(m) && IsSemaphore(m, s)
    ensures s in m.lists && s in m.excess
    ensures m.lists[s] == [] ==>
              Signal(m, s) == m.(excess := m.excess[s := if m.excess[s] < 16383 then m.excess[s] + 1 else m.excess[s]])
    ensures m.lists[s] != [] ==>
              var p := m.lists[s][0];
              var r := m.(lists := m.lists[s := m.lists[s][1..]], place := m.place[p := Suspended]);
              Inv(r) && p in r.priority && r.place[p] == Suspended && Signal(m, s) == Resume(r, p)
  {
    Known(m, s);
    if m.lists[s] == [] {
      assert m.excess[s := m.excess[s]] == m.excess;
    } else {
      RemoveFirstKeeps(m, s);
    }
    hide Placed, Counted, Fair, Resume;
  }

  /** A wait takes a signal that was counted; without one, the active process goes to the end
      of the queue and hands over. */
  lemma WaitByQueues(m: Sched, s: Oop)
    requires Inv(m) && IsSemaphore(m, s) && CanWait(m, s)
    ensures s in m.lists && s in m.excess
    ensures m.excess[s] > 0 ==> Wait(m, s) == m.(excess := m.excess[s := m.excess[s] - 1])
    ensures m.excess[s] == 0 ==>
              var r := m.(lists := m.lists[s := m.lists[s] + [m.active]], place := m.place[m.active := Queued(s)]);
              Queues(r) && SomeReady(r) && Wait(m, s) == SuspendActive(r)
  {
    Known(m, s);
    if m.excess[s] == 0 {
      WaitingKeeps(m, s);
    }
    hide Placed, Counted, Fair, SuspendActive;
  }

  /** A process that suspends itself hands over. */
  lemma SuspendByQueues(m: Sched)
    requires Inv(m) && SomeReady(m)
    ensures var r := m.(place := m.place[m.active := Suspended]);
            Queues(r) && SomeReady(r) && Suspend(m) == SuspendActive(r)
  {
    SuspendingKeeps(m);
    hide Placed, Counted, Fair, SuspendActive;
  }

  /** The buffered signals are delivered from the last to the first. */
  lemma {:induction false} DrainBackwards(buffer: seq<Oop>)
    ensures |DrainOps(buffer)| == |buffer|
    ensures forall i | 0 <= i < |buffer| :: DrainOps(buffer)[i] == DoSignal(buffer[|buffer| - 1 - i])
    decreases |buffer|
  {
    if buffer != [] {
      DrainBackwards(buffer[..|buffer| - 1]);
    }
  }
}
