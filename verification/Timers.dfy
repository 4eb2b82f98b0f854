/** The kernel timers: a list sorted on a 32-bit tick counter that wraps, proved
    against deadlines that do not. */
module Timers {
  import opened PtrLists

  const SPAN := 0x1_0000_0000
  const HALF := 0x8000_0000

  /** `(int) x` for an unsigned x of 32 bits, as the result of a subtraction. */
  function Signed(x: int): (r: int)
    ensures -HALF <= r < HALF && (r - x) % SPAN == 0
  {
    var u := x % SPAN;
    if u < HALF then u else u - SPAN
  }

  /** The driver's comparison is the comparison of the true times, as long as they are
      less than half the span apart; it is wrong for all others within the span. */
  lemma SignedDifference(a: nat, b: nat)
    requires -0x1_0000_0000 < a - b < 0x1_0000_0000
    ensures Signed(a % 0x1_0000_0000 - b % 0x1_0000_0000) == a - b <==> -0x8000_0000 <= a - b < 0x8000_0000
    ensures Signed(a % 0x1_0000_0000 - b % 0x1_0000_0000) > 0 <==> 0 < a - b < 0x8000_0000 || a - b < -0x8000_0000
  {
  }

  class KernelTimer {
    const elapsesAt: nat
    ghost const startedAt: nat
    ghost const deadline: nat
    ghost const serial: nat

    constructor (elapsesAt: nat, ghost startedAt: nat, ghost delay: nat, ghost serial: nat)
      ensures this.elapsesAt == elapsesAt && this.startedAt == startedAt && this.deadline == startedAt + delay
      ensures this.serial == serial
    {
      this.elapsesAt := elapsesAt;
      this.startedAt, this.deadline, this.serial := startedAt, startedAt + delay, serial;
    }
  }

  datatype Firing = Firing(timer: KernelTimer, at: nat)

  // ---------- what the driver compares ----------

  /** The driver takes t to elapse after u. */
  predicate Later(t: KernelTimer, u: KernelTimer) { Signed(t.elapsesAt - u.elapsesAt) > 0 }

  /** The driver takes a timer to be due. */
  predicate IsDue(t: KernelTimer, ticks: nat) { Signed(t.elapsesAt - ticks) <= 0 }

  /** Where a timer goes: before the first that is later, looking from place k on. */
  function Place(queue: seq<KernelTimer>, t: KernelTimer, k: nat): (p: nat)
    requires k <= |queue|
    ensures k <= p <= |queue| && (p < |queue| ==> Later(queue[p], t))
    ensures forall i | k <= i < p :: !Later(queue[i], t)
    decreases |queue| - k
  {
    if k == |queue| || Later(queue[k], t) then k else Place(queue, t, k + 1)
  }

  /** How many timers fire: those before the first that is not due, from k on. */
  function DueFrom(queue: seq<KernelTimer>, ticks: nat, k: nat): (n: nat)
    requires k <= |queue|
    ensures k <= n <= |queue| && (n < |queue| ==> !IsDue(queue[n], ticks))
    ensures forall i | k <= i < n :: IsDue(queue[i], ticks)
    decreases |queue| - k
  {
    if k == |queue| || !IsDue(queue[k], ticks) then k else DueFrom(queue, ticks, k + 1)
  }

  ghost function FiringsOf(s: seq<KernelTimer>, at: nat): (f: seq<Firing>)
    ensures |f| == |s| && forall i | 0 <= i < |f| :: f[i] == Firing(s[i], at)
  {
    seq(|s|, i requires 0 <= i < |s| => Firing(s[i], at))
  }

  // ---------- the order of true deadlines ----------

  /** Earlier deadline, or started first on a tie. */
  ghost predicate Before(t: KernelTimer, u: KernelTimer) {
    t.deadline < u.deadline || (t.deadline == u.deadline && t.serial < u.serial)
  }

  ghost predicate InOrder(s: seq<KernelTimer>) {
    forall i, j | 0 <= i < j < |s| :: Before(s[i], s[j])
  }

  ghost function TimersOf(fired: seq<Firing>): (s: seq<KernelTimer>)
    ensures |s| == |fired| && forall i | 0 <= i < |s| :: s[i] == fired[i].timer
  {
    seq(|fired|, i requires 0 <= i < |fired| => fired[i].timer)
  }

  /** On the tick of its deadline; a timer started with no delay fires on the tick it
      was started on or on the next. */
  ghost predicate OnTime(f: Firing) {
    if f.timer.startedAt < f.timer.deadline then f.at == f.timer.deadline
    else f.timer.deadline <= f.at <= f.timer.deadline + 1
  }

  /** A timer that waits at time `now`, while the poll of this tick may be under way. */
  ghost predicate Waiting(t: KernelTimer, now: nat) {
    && t.elapsesAt == t.deadline % SPAN
    && t.startedAt <= now <= t.deadline + 1
    && t.deadline < t.startedAt + HALF
    && (t.deadline < now ==> t.startedAt == t.deadline)
  }

  /** A timer that may wait until the next tick. */
  ghost predicate Settled(t: KernelTimer, now: nat) {
    now < t.deadline || (t.deadline == now && t.startedAt == now)
  }

  /** Putting an item into a sequence, and where the others are then. */
  function Inserted<T>(s: seq<T>, p: nat, t: T): (r: seq<T>)
    requires p <= |s|
    ensures |r| == |s| + 1
    ensures forall k | 0 <= k < |r| :: r[k] == if k < p then s[k] else if k == p then t else s[k - 1]
  {
    s[..p] + [t] + s[p..]
  }

  lemma InsertedMembers<T>(s: seq<T>, p: nat, t: T)
    requires p <= |s|
    ensures forall u :: u in Inserted(s, p, t) <==> u in s || u == t
    ensures |Inserted(s, p, t)| == |s| + 1 && (0 < p ==> Inserted(s, p, t)[0] == s[0])
    ensures forall k | 0 <= k < |s| + 1 :: Inserted(s, p, t)[k] in s || Inserted(s, p, t)[k] == t
  {
  }

  lemma InsertInOrder(s: seq<KernelTimer>, t: KernelTimer, p: nat)
    requires InOrder(s) && p <= |s|
    requires forall u | u in s :: u.serial < t.serial
    requires forall k | 0 <= k < p :: s[k].deadline <= t.deadline
    requires p < |s| ==> t.deadline < s[p].deadline
    ensures InOrder(Inserted(s, p, t))
  {
    var r := Inserted(s, p, t);
    forall i, j | 0 <= i < j < |r|
      ensures Before(r[i], r[j])
    {
      if i == p {
        assert p < j - 1 ==> Before(s[p], s[j - 1]);
      } else if j == p {
        assert r[i] in s;
      } else {
        assert Before(s[if i < p then i else i - 1], s[if j < p then j else j - 1]);
      }
    }
  }

  /** Inserting into the waiting part of the history. */
  lemma InsertLater(f: seq<KernelTimer>, q: seq<KernelTimer>, t: KernelTimer, p: nat)
    requires InOrder(f + q) && p <= |q|
    requires forall u | u in f + q :: u.serial < t.serial
    requires forall u | u in f :: u.deadline <= t.deadline
    requires forall k | 0 <= k < p :: q[k].deadline <= t.deadline
    requires p < |q| ==> t.deadline < q[p].deadline
    ensures InOrder(f + Inserted(q, p, t))
    ensures forall u :: u in f + Inserted(q, p, t) <==> u in f + q || u == t
  {
    forall k | 0 <= k < |f| + p
      ensures (f + q)[k].deadline <= t.deadline
    {
      assert k < |f| ==> f[k] in f;
    }
    InsertInOrder(f + q, t, |f| + p);
    assert f + Inserted(q, p, t) == Inserted(f + q, |f| + p, t);
  }

  lemma AddTicks(a: nat, b: nat)
    ensures (a % SPAN + b) % SPAN == (a + b) % SPAN
  {
  }

  /** Every timer started waits, has fired, or was cancelled. */
  ghost predicate Accounted(known: seq<KernelTimer>, started: seq<KernelTimer>, cancelled: set<KernelTimer>) {
    && (forall i | 0 <= i < |started| :: started[i].serial == i)
    && (forall t | t in known :: t.serial < |started| && started[t.serial] == t && t !in cancelled)
    && (forall t | t in started :: t in known || t in cancelled)
  }

  /** All that holds of the timers between any two steps, polls included: those that
      fired did so on time, and first those that fired and then those that wait are in
      the order of their deadlines, and of their starts on a tie. */
  ghost predicate History(now: nat, fired: seq<Firing>, started: seq<KernelTimer>, cancelled: set<KernelTimer>,
                          queue: seq<KernelTimer>) {
    && InOrder(TimersOf(fired) + queue)
    && Accounted(TimersOf(fired) + queue, started, cancelled)
    && (forall t | t in queue :: Waiting(t, now))
    && (forall f | f in fired :: OnTime(f) && f.timer.deadline <= f.at <= now)
  }

  /** The delays timers were started with. */
  ghost function DelaysOf(s: seq<KernelTimer>): (d: seq<int>)
    ensures |d| == |s| && forall i | 0 <= i < |d| :: d[i] == s[i].deadline - s[i].startedAt
  {
    seq(|s|, i requires 0 <= i < |s| => s[i].deadline - s[i].startedAt)
  }

  lemma DelaysOfMore(s: seq<KernelTimer>, t: KernelTimer)
    ensures DelaysOf(s + [t]) == DelaysOf(s) + [t.deadline - t.startedAt]
  {
  }

  /** What the handler of the n-th firing does. */
  function HandlerOf(handlers: seq<seq<nat>>, n: nat): seq<nat> {
    if n < |handlers| then handlers[n] else []
  }

  /** The delays the first n handlers start timers with. */
  function Requested(handlers: seq<seq<nat>>, n: nat): seq<int> {
    if n == 0 then [] else Requested(handlers, n - 1) + HandlerOf(handlers, n - 1)
  }

  predicate Short(delays: seq<nat>) { forall i | 0 <= i < |delays| :: delays[i] < HALF }

  predicate AllShort(handlers: seq<seq<nat>>) { forall n | 0 <= n < |handlers| :: Short(handlers[n]) }

  /** What a poll has started after n firings. */
  ghost predicate StartedAsAsked(started: seq<KernelTimer>, was: seq<KernelTimer>, handlers: seq<seq<nat>>, n: nat) {
    DelaysOf(started) == DelaysOf(was) + Requested(handlers, n)
  }

  lemma NothingAsked(was: seq<KernelTimer>, handlers: seq<seq<nat>>)
    ensures StartedAsAsked(was, was, handlers, 0)
  {
  }

  lemma AskedStep(started: seq<KernelTimer>, after: seq<KernelTimer>, was: seq<KernelTimer>,
                  handlers: seq<seq<nat>>, n: nat)
    requires StartedAsAsked(started, was, handlers, n)
    requires DelaysOf(after) == DelaysOf(started) + HandlerOf(handlers, n)
    ensures StartedAsAsked(after, was, handlers, n + 1)
  {
    assert Requested(handlers, n + 1) == Requested(handlers, n) + HandlerOf(handlers, n);
  }

  lemma HandlerIsShort(handlers: seq<seq<nat>>, n: nat)
    ensures AllShort(handlers) ==> Short(HandlerOf(handlers, n))
    ensures Starts(handlers, n) == |HandlerOf(handlers, n)| + Starts(handlers, n + 1)
  {
  }

  /** A poll whose handlers start nothing, after n firings. */
  ghost predicate FiredSoFar(queue: seq<KernelTimer>, ticks: nat, now: nat, was: seq<Firing>, n: nat,
                             left: seq<KernelTimer>, fired: seq<Firing>)
  {
    && n <= |queue| && left == queue[n..] && fired == was + FiringsOf(queue[..n], now)
    && DueFrom(queue, ticks, n) == DueFrom(queue, ticks, 0)
  }

  lemma NothingFired(queue: seq<KernelTimer>, ticks: nat, now: nat, was: seq<Firing>)
    ensures FiredSoFar(queue, ticks, now, was, 0, queue, was)
  {
  }

  lemma OneMoreFired(queue: seq<KernelTimer>, ticks: nat, now: nat, was: seq<Firing>, n: nat,
                     left: seq<KernelTimer>, fired: seq<Firing>)
    requires FiredSoFar(queue, ticks, now, was, n, left, fired) && left != [] && IsDue(left[0], ticks)
    ensures FiredSoFar(queue, ticks, now, was, n + 1, left[1..], fired + [Firing(left[0], now)])
  {
    assert FiringsOf(queue[..n + 1], now) == FiringsOf(queue[..n], now) + [Firing(left[0], now)];
  }

  /** Exactly the timers before the first that is not due have fired, in their order. */
  ghost predicate FiredTheDue(queue: seq<KernelTimer>, ticks: nat, now: nat, was: seq<Firing>,
                              left: seq<KernelTimer>, fired: seq<Firing>)
  {
    var n := DueFrom(queue, ticks, 0);
    left == queue[n..] && fired == was + FiringsOf(queue[..n], now)
  }

  lemma FirstNotDue(queue: seq<KernelTimer>, ticks: nat, now: nat, was: seq<Firing>, n: nat,
                    left: seq<KernelTimer>, fired: seq<Firing>)
    requires FiredSoFar(queue, ticks, now, was, n, left, fired) && (left != [] ==> !IsDue(left[0], ticks))
    ensures FiredTheDue(queue, ticks, now, was, left, fired)
  {
  }

  ghost predicate StartedNow(t: KernelTimer, now: nat) {
    t.startedAt == now <= t.deadline
  }

  /** The deadlines are close enough to be compared by their low 32 bits. */
  ghost predicate Comparable(t: KernelTimer, u: KernelTimer) {
    && t.elapsesAt == t.deadline % SPAN && u.elapsesAt == u.deadline % SPAN
    && -HALF <= t.deadline - u.deadline < HALF
  }

  lemma FiredBefore(fired: seq<Firing>, now: nat, u: KernelTimer)
    requires forall f | f in fired :: f.timer.deadline <= f.at <= now
    requires u in TimersOf(fired)
    ensures u.deadline <= now
  {
    var i :| 0 <= i < |fired| && TimersOf(fired)[i] == u;
    assert fired[i] in fired;
  }

  lemma StartKeeps(now: nat, fired: seq<Firing>, started: seq<KernelTimer>, cancelled: set<KernelTimer>,
                   queue: seq<KernelTimer>, t: KernelTimer, p: nat)
    requires History(now, fired, started, cancelled, queue) && p <= |queue|
    requires t !in cancelled && t.serial == |started| && t.startedAt == now && Waiting(t, now)
    requires forall k | 0 <= k < p :: queue[k].deadline <= t.deadline
    requires p < |queue| ==> t.deadline < queue[p].deadline
    requires now <= t.deadline
    ensures History(now, fired, started + [t], cancelled, Inserted(queue, p, t))
  {
    forall u | u in TimersOf(fired)
      ensures u.deadline <= t.deadline
    {
      FiredBefore(fired, now, u);
    }
    InsertLater(TimersOf(fired), queue, t, p);
    assert forall u | u in Inserted(queue, p, t) :: u in queue || u == t;
  }

  /** A timer started at time `now`. */
  ghost predicate IsStarted(t: KernelTimer, now: nat, delay: nat) {
    t.startedAt == now && t.deadline == now + delay && t.elapsesAt == (now + delay) % SPAN
  }

  /** Behind all timers with no later deadline, and before all with a later one. */
  ghost predicate Between(queue: seq<KernelTimer>, p: nat, t: KernelTimer) {
    && p <= |queue|
    && (forall k | 0 <= k < p :: queue[k].deadline <= t.deadline)
    && (p < |queue| ==> t.deadline < queue[p].deadline)
  }

  lemma PlaceInside(queue: seq<KernelTimer>, t: KernelTimer)
    ensures Place(queue, t, 0) <= |queue|
  {
  }

  /** The driver's place for a timer is the right one. */
  lemma PlaceIsBetween(queue: seq<KernelTimer>, t: KernelTimer)
    requires forall u | u in queue :: Comparable(u, t)
    ensures Between(queue, Place(queue, t, 0), t)
  {
    var p := Place(queue, t, 0);
    forall k | 0 <= k < |queue|
      ensures Later(queue[k], t) <==> t.deadline < queue[k].deadline
    {
      assert Comparable(queue[k], t);
      SignedDifference(queue[k].deadline, t.deadline);
    }
  }

  /** A timer that waits, compared with one started now. */
  lemma WaitingIsComparable(u: KernelTimer, t: KernelTimer, now: nat, delay: nat)
    requires Waiting(u, now) && IsStarted(t, now, delay) && delay < HALF
    ensures Comparable(u, t)
  {
  }

  lemma StartInOrder(now: nat, fired: seq<Firing>, started: seq<KernelTimer>, cancelled: set<KernelTimer>,
                     queue: seq<KernelTimer>, t: KernelTimer)
    requires History(now, fired, started, cancelled, queue)
    requires t !in cancelled && t.serial == |started| && t.deadline < now + HALF && now <= t.deadline
    requires IsStarted(t, now, t.deadline - now)
    ensures var p := Place(queue, t, 0);
            Between(queue, p, t) && History(now, fired, started + [t], cancelled, Inserted(queue, p, t))
  {
    forall u | u in queue
      ensures Comparable(u, t)
    {
      WaitingIsComparable(u, t, now, t.deadline - now);
    }
    PlaceIsBetween(queue, t);
    StartKeeps(now, fired, started, cancelled, queue, t, Place(queue, t, 0));
  }

  lemma FireKeeps(now: nat, fired: seq<Firing>, started: seq<KernelTimer>, cancelled: set<KernelTimer>,
                  queue: seq<KernelTimer>)
    requires History(now, fired, started, cancelled, queue) && queue != [] && queue[0].deadline <= now
    ensures History(now, fired + [Firing(queue[0], now)], started, cancelled, queue[1..])
  {
    assert queue[0] in queue;
    assert TimersOf(fired) + queue == TimersOf(fired + [Firing(queue[0], now)]) + queue[1..];
  }

  /** If the first timer is not due, none is. */
  lemma RestLater(now: nat, fired: seq<Firing>, started: seq<KernelTimer>, cancelled: set<KernelTimer>,
                  queue: seq<KernelTimer>)
    requires History(now, fired, started, cancelled, queue)
    ensures queue != [] && now < queue[0].deadline ==> forall t | t in queue :: now < t.deadline
  {
    var f, s := TimersOf(fired), TimersOf(fired) + queue;
    forall k | 0 < k < |queue|
      ensures queue[0].deadline <= queue[k].deadline
    {
      assert Before(s[|f|], s[|f| + k]);
    }
  }

  lemma CancelKeeps(now: nat, fired: seq<Firing>, started: seq<KernelTimer>, cancelled: set<KernelTimer>,
                    queue: seq<KernelTimer>, i: nat)
    requires History(now, fired, started, cancelled, queue) && i < |queue|
    ensures History(now, fired, started, cancelled + {queue[i]}, queue[..i] + queue[i + 1..])
    ensures forall u :: u in queue[..i] + queue[i + 1..] <==> u in queue && u != queue[i]
  {
    var f, s := TimersOf(fired), TimersOf(fired) + queue;
    var rest := queue[..i] + queue[i + 1..];
    var r, m := f + rest, |f| + i;
    assert forall k | 0 <= k < |r| :: r[k] == s[if k < m then k else k + 1];
    forall j, k | 0 <= j < k < |r|
      ensures Before(r[j], r[k])
    {
      assert Before(s[if j < m then j else j + 1], s[if k < m then k else k + 1]);
    }
    forall u | u in s
      ensures u in r <==> u != queue[i]
    {
      var k :| 0 <= k < |s| && s[k] == u;
      assert s[m] == queue[i];
      assert k < m ==> Before(s[k], s[m]) && r[k] == u;
      assert m < k ==> Before(s[m], s[k]) && r[k - 1] == u;
      forall j | 0 <= j < |r|
        ensures r[j] != queue[i]
      {
        assert j < m ==> Before(s[j], s[m]);
        assert m <= j ==> Before(s[m], s[j + 1]);
      }
    }
    forall u | u in r
      ensures u in s
    {
      var k :| 0 <= k < |r| && r[k] == u;
      assert s[if k < m then k else k + 1] == u;
    }
    forall u
      ensures u in rest <==> u in queue && u != queue[i]
    {
      if u in queue && u != queue[i] {
        var k :| 0 <= k < |queue| && queue[k] == u;
        assert rest[if k < i then k else k - 1] == u;
      }
      assert u in rest ==> u in r;
    }
  }

  /** The queue without a timer's first place in it. */
  ghost function Without(queue: seq<KernelTimer>, t: KernelTimer): seq<KernelTimer> {
    if queue == [] then [] else if queue[0] == t then queue[1..] else [queue[0]] + Without(queue[1..], t)
  }

  lemma {:induction false} FirstIs(queue: seq<KernelTimer>, t: KernelTimer, i: nat)
    requires i <= |queue| && t !in queue[..i] && (i < |queue| ==> queue[i] == t)
    ensures Without(queue, t) == if i < |queue| then queue[..i] + queue[i + 1..] else queue
    decreases |queue|
  {
    if queue != [] && queue[0] != t {
      var rest := queue[1..];
      assert queue[..i] == [queue[0]] + rest[..i - 1];
      FirstIs(rest, t, i - 1);
      if i < |queue| {
        assert queue[i + 1..] == rest[i..];
      } else {
        assert queue == [queue[0]] + rest;
      }
    }
  }

  lemma TickKeeps(now: nat, fired: seq<Firing>, started: seq<KernelTimer>, cancelled: set<KernelTimer>,
                  queue: seq<KernelTimer>)
    requires History(now, fired, started, cancelled, queue)
    requires forall t | t in queue :: Settled(t, now)
    ensures History(now + 1, fired, started, cancelled, queue)
  {
  }

  // ---------- delays of 2^31 and more ----------

  /** Timers that may wait at time `now`, in the order of their deadlines. */
  ghost predicate Settle(queue: seq<KernelTimer>, now: nat) {
    && (forall u | u in queue :: Waiting(u, now) && Settled(u, now))
    && (forall i, j | 0 <= i < j < |queue| :: queue[i].deadline <= queue[j].deadline)
  }

  /** A timer that is started goes before one that is due now exactly if its delay is
      more than 2^31. */
  lemma LongBeforeDue(queue: seq<KernelTimer>, now: nat, t: KernelTimer, delay: nat, k: nat)
    requires Settle(queue, now) && IsStarted(t, now, delay) && delay < 0x1_0000_0000
    requires k < |queue| && queue[k].deadline == now
    ensures Place(queue, t, 0) <= k <==> delay > 0x8000_0000
  {
    forall i | 0 <= i <= k
      ensures Later(queue[i], t) <==> delay > HALF
    {
      assert queue[i] in queue && queue[i].deadline == now;
      SignedDifference(now, now + delay);
    }
  }

  /** A timer started without delay goes behind one that waits with a delay, as if that
      were due, exactly if the delay is at least 2^31. */
  lemma DueBehindLong(now: nat, long: KernelTimer, delay: nat, t: KernelTimer)
    requires IsStarted(long, now, delay) && 0 < delay < 0x1_0000_0000 && IsStarted(t, now, 0)
    ensures Place([long], t, 0) == 1 <==> delay >= 0x8000_0000
  {
    SignedDifference(now + delay, now);
  }

  /** The next tick fires a timer exactly if its delay is at most 1 or more than 2^31,
      and the timers before it are due by then. */
  lemma NextTickFires(queue: seq<KernelTimer>, now: nat, t: KernelTimer, delay: nat)
    requires Settle(queue, now) && IsStarted(t, now, delay) && delay < 0x1_0000_0000
    ensures var p := Place(queue, t, 0);
            p < DueFrom(Inserted(queue, p, t), (now + 1) % 0x1_0000_0000, 0) <==>
            (delay <= 1 || delay > 0x8000_0000) && forall i | 0 <= i < p :: queue[i].deadline <= now + 1
  {
    var p, ticks := Place(queue, t, 0), (now + 1) % SPAN;
    var all := Inserted(queue, p, t);
    DueByThen(t, now, delay);
    forall i | 0 <= i < p
      ensures all[i] == queue[i] && (IsDue(all[i], ticks) <==> queue[i].deadline <= now + 1)
    {
      assert queue[i] in queue;
      WaitingDueByThen(queue[i], now);
    }
    hide IsDue, Later, Place, Inserted, Settle;
    DuePrefix(all, ticks, p);
    assert all[p] == t;
  }

  lemma DueByThen(t: KernelTimer, now: nat, delay: nat)
    requires IsStarted(t, now, delay) && delay < 0x1_0000_0000
    ensures IsDue(t, (now + 1) % 0x1_0000_0000) <==> delay <= 1 || delay > 0x8000_0000
  {
    SignedDifference(now + delay, now + 1);
  }

  lemma WaitingDueByThen(t: KernelTimer, now: nat)
    requires Waiting(t, now)
    ensures IsDue(t, (now + 1) % SPAN) <==> t.deadline <= now + 1
  {
    SignedDifference(t.deadline, now + 1);
  }

  lemma DuePrefix(queue: seq<KernelTimer>, ticks: nat, p: nat)
    requires p < |queue|
    ensures p < DueFrom(queue, ticks, 0) <==> forall i | 0 <= i <= p :: IsDue(queue[i], ticks)
  {
    hide IsDue;
    var n := DueFrom(queue, ticks, 0);
    assert n <= p ==> !IsDue(queue[n], ticks);
  }

  /** With no other timer waiting. */
  lemma LoneTimerFires(now: nat, t: KernelTimer, delay: nat)
    requires IsStarted(t, now, delay) && delay < 0x1_0000_0000
    ensures DueFrom([t], (now + 1) % 0x1_0000_0000, 0) == 1 <==> delay <= 1 || delay > 0x8000_0000
  {
    NextTickFires([], now, t, delay);
    assert Inserted([], 0, t) == [t];
  }

  class KernelTimers {
    const list: PtrList<KernelTimer>
    var ticks: nat

    // history: the true time; the timers fired, started (in order), and cancelled
    ghost var now: nat
    ghost var fired: seq<Firing>
    ghost var started: seq<KernelTimer>
    ghost var cancelled: set<KernelTimer>

    ghost function Queue(): seq<KernelTimer>
      reads list`elements
    {
      list.Contents()
    }

    /** All that holds whatever the delays are. */
    ghost predicate Linked()
      reads this, list, list.elements
    {
      list.Valid() && ticks == now % SPAN
    }

    /** All that holds between any two steps, polls included, if delays stay below 2^31. */
    ghost predicate Running()
      reads this, list, list.elements
    {
      Linked() && History(now, fired, started, cancelled, Queue())
    }

    ghost predicate AllSettled()
      reads this`now, list`elements
    {
      forall t | t in Queue() :: Settled(t, now)
    }

    ghost predicate Valid()
      reads this, list, list.elements
    {
      Running() && AllSettled()
    }

    constructor ()
      ensures Valid() && now == 0 && fired == [] && started == [] && cancelled == {} && Queue() == []
      ensures fresh(list)
    {
      list := new PtrList<KernelTimer>();
      ticks, now := 0, 0;
      fired, started, cancelled := [], [], {};
    }

    /** Finds the place of a timer in the list. */
    method FindPlace(timer: KernelTimer)
      returns (prev: Element?<KernelTimer>, place: Element?<KernelTimer>, ghost p: nat)
      requires list.Valid()
      ensures p == Place(Queue(), timer, 0) && place == list.At(p) && prev == list.At(p - 1)
    {
      prev, place, p := null, list.first, 0;
      while place != null
        invariant p <= |list.elements| && place == list.At(p) && prev == list.At(p - 1)
        invariant Place(Queue(), timer, p) == Place(Queue(), timer, 0)
        decreases |list.elements| - p
      {
        var timer2 := place.ptr;
        assert timer2 == Queue()[p];
        if Signed(timer2.elapsesAt - timer.elapsesAt) > 0 {
          break;
        }
        assert list.LinkedAt(p);
        prev, place, p := place, place.next, p + 1;
      }
    }

    /** Puts a timer into the list. */
    method Insert(timer: KernelTimer) returns (ghost p: nat)
      requires list.Valid()
      modifies list, list.elements
      ensures list.Valid() && p == Place(old(Queue()), timer, 0)
      ensures |list.elements| == |old(list.elements)| + 1
      ensures list.elements == Inserted(old(list.elements), p, list.elements[p])
      ensures fresh(list.elements[p]) && list.elements[p].ptr == timer
      ensures Queue() == Inserted(old(Queue()), p, timer)
    {
      hide Place;
      ghost var queue := Queue();
      var prev, place;
      prev, place, p := FindPlace(timer);
      PlaceInside(queue, timer);
      if place != null {
        list.InsertBefore(place, timer, p);
      } else {
        list.InsertAfter(prev, timer, p - 1);
      }
      assert Queue() == Inserted(queue, p, timer);
    }

    /** The timer goes before the first that the driver takes to be later. Delays below
        2^31 keep the order of the true deadlines. */
    method StartKernelTimer(delay: nat) returns (timer: KernelTimer, ghost p: nat)
      requires Linked() && delay < SPAN
      modifies this`started, list, list.elements
      ensures Linked() && fresh(timer) && IsStarted(timer, now, delay)
      ensures started == old(started) + [timer]
      ensures p == Place(old(Queue()), timer, 0) && |list.elements| == |old(list.elements)| + 1
      ensures list.elements == Inserted(old(list.elements), p, list.elements[p])
      ensures fresh(list.elements[p]) && list.elements[p].ptr == timer
      ensures Queue() == Inserted(old(Queue()), p, timer)
      ensures old(Running()) && delay < HALF ==> Running() && Between(old(Queue()), p, timer)
    {
      hide InOrder, Accounted, OnTime, Inserted, Place, History, Between;
      AddTicks(now, delay);
      var elapsesAt := (ticks + delay) % SPAN;
      timer := new KernelTimer(elapsesAt, now, delay, |started|);
      p := Insert(timer);
      PlaceInside(old(Queue()), timer);
      if old(Running()) && delay < HALF {
        StartInOrder(now, fired, started, cancelled, old(Queue()), timer);
      }
      started := started + [timer];
    }

    /** Takes the timer in place i out of the list. */
    method TakeOut(element: Element<KernelTimer>, timer: KernelTimer, ghost i: nat)
      requires Linked() && i < |list.elements| && element == list.elements[i] && timer == Queue()[i]
      modifies this`cancelled, list, list.elements
      ensures Linked() && cancelled == old(cancelled) + {timer}
      ensures Queue() == old(Queue())[..i] + old(Queue())[i + 1..]
      ensures old(Valid()) ==> Valid() && forall t | t in old(Queue()) :: t in Queue() <==> t != timer
      ensures forall t | t in Queue() :: t in old(Queue())
    {
      hide History, Settled;
      ghost var queue, rest := Queue(), Queue()[..i] + Queue()[i + 1..];
      if Valid() {
        CancelKeeps(now, fired, started, cancelled, queue, i);
      }
      list.Remove(element, i);
      cancelled := cancelled + {timer};
      assert |Queue()| == |rest| && forall k | 0 <= k < |rest| :: Queue()[k] == rest[k];
      assert Queue() == rest;
    }

    /** A timer that already fired is left alone. */
    method CancelKernelTimer(timer: KernelTimer)
      requires Linked()
      modifies this`cancelled, list, list.elements
      ensures Linked() && (old(Valid()) ==> Valid() && timer !in Queue())
      ensures cancelled == if timer in old(Queue()) then old(cancelled) + {timer} else old(cancelled)
      ensures Queue() == Without(old(Queue()), timer)
      ensures old(Valid()) ==> forall t | t != timer :: t in Queue() <==> t in old(Queue())
    {
      hide History, Without, KernelTimers.Valid;
      ghost var queue := Queue();
      var element, i := list.Find(timer);
      FirstIs(queue, timer, i);
      if element != null {
        assert timer == queue[i];
        TakeOut(element, timer, i);
      } else {
        assert queue[..i] == queue;
      }
    }

    /** What a handler does: it starts timers. */
    method StartAll(delays: seq<nat>)
      requires Linked() && ((Running() && Short(delays)) || delays == [])
      modifies this`started, list, list.elements
      ensures Linked() && (old(Running()) ==> Running()) && |list.elements| == |old(list.elements)| + |delays|
      ensures delays == [] ==> list.elements == old(list.elements)
      ensures forall e | e in old(list.elements) :: e in list.elements
      ensures forall i | 0 <= i < |list.elements| :: list.elements[i] in old(list.elements) || fresh(list.elements[i])
      ensures forall t | t in old(Queue()) :: t in Queue()
      ensures forall t | t in Queue() :: t in old(Queue()) || StartedNow(t, now)
      ensures DelaysOf(started) == DelaysOf(old(started)) + delays
      ensures old(Queue()) != [] && old(Queue())[0].deadline <= now ==> list.elements[0] == old(list.elements[0])
      decreases |delays|
    {
      hide History, Inserted, DelaysOf;
      if delays == [] {
        assert DelaysOf(started) + delays == DelaysOf(started);
        return;
      }
      var _ := StartOne(delays[0]);
      StartAll(delays[1..]);
      assert delays == [delays[0]] + delays[1..];
    }

    method StartOne(delay: nat) returns (timer: KernelTimer)
      requires Running() && delay < HALF
      modifies this`started, list, list.elements
      ensures Running() && |list.elements| == |old(list.elements)| + 1
      ensures forall e | e in old(list.elements) :: e in list.elements
      ensures forall i | 0 <= i < |list.elements| :: list.elements[i] in old(list.elements) || fresh(list.elements[i])
      ensures forall t | t in old(Queue()) :: t in Queue()
      ensures forall t | t in Queue() :: t in old(Queue()) || StartedNow(t, now)
      ensures DelaysOf(started) == DelaysOf(old(started)) + [delay]
      ensures old(Queue()) != [] && old(Queue())[0].deadline <= now ==>
                list.elements[0] == old(list.elements[0]) && Queue()[0] == old(Queue()[0])
    {
      hide History, Inserted, DelaysOf;
      ghost var before, queue, was := list.elements, Queue(), started;
      ghost var p: nat;
      timer, p := StartKernelTimer(delay);
      DelaysOfMore(was, timer);
      InsertedMembers(before, p, list.elements[p]);
      InsertedMembers(queue, p, timer);
    }

    /** Takes the first timer off the list and fires it. */
    method FireFirst() returns (next: Element?<KernelTimer>)
      requires Linked() && list.elements != []
      modifies this`fired, list, list.elements
      ensures Linked() && (old(Running()) && old(Queue())[0].deadline <= now ==> Running())
      ensures list.elements == old(list.elements)[1..] && next == list.At(0)
      ensures Queue() == old(Queue())[1..]
      ensures fired == old(fired) + [Firing(old(Queue())[0], now)]
    {
      hide History;
      var element := list.first;
      assert list.LinkedAt(0);
      next := element.next;
      if Running() && Queue()[0].deadline <= now {
        FireKeeps(now, fired, started, cancelled, Queue());
      }
      fired := fired + [Firing(Queue()[0], now)];
      list.Remove(element, 0);
      assert Queue() == old(Queue())[1..];
    }

    /** The timers that were in the list when a poll began: due ones fire, others stay. */
    ghost predicate Handled(queue: seq<KernelTimer>, was: seq<Firing>)
      reads this`now, this`fired, list`elements
    {
      && was <= fired
      && (forall t | t in queue :: t in Queue() || Firing(t, now) in fired[|was|..])
      && (forall f | f in fired[|was|..] ::
            f.at == now && f.timer.deadline <= now && (f.timer in queue || StartedNow(f.timer, now)))
    }

    /** How a poll's place in the list is right: nothing that is due is left behind. */
    ghost predicate AtPlace(element: Element?<KernelTimer>)
      reads this`now, list`elements
    {
      || element == list.At(0)
      || (&& (element != null ==> element in list.elements && now < element.ptr.deadline)
          && AllSettled())
    }

    /** The comparison that decides whether the timer at the poll's place is due: if it
        is, it is the first; if not, no other is. */
    lemma DueOrDone(element: Element<KernelTimer>, queue: seq<KernelTimer>, was: seq<Firing>)
      requires GoingWell(queue, was) && AtPlace(element)
      ensures if Signed(element.ptr.elapsesAt - ticks) > 0 then Valid() && Handled(queue, was)
              else list.elements != [] && Queue()[0].deadline <= now
    {
      assert element in list.elements;
      var i :| 0 <= i < |list.elements| && list.elements[i] == element;
      assert Queue()[i] == element.ptr && Waiting(element.ptr, now);
      SignedDifference(element.ptr.deadline, now);
      RestLater(now, fired, started, cancelled, Queue());
    }

    lemma NothingLeft(queue: seq<KernelTimer>, was: seq<Firing>)
      requires GoingWell(queue, was) && AtPlace(null)
      ensures Valid() && Handled(queue, was)
    {
    }

    lemma AtFirst()
      requires Running()
      ensures AtPlace(list.first) && GoingWell(Queue(), fired)
    {
    }

    /** One round: fires the first timer, whose handler starts others. */
    method Round(delays: seq<nat>, ghost queue: seq<KernelTimer>, ghost was: seq<Firing>, ghost well: bool)
      returns (next: Element?<KernelTimer>)
      requires Linked() && list.elements != []
      requires if well then GoingWell(queue, was) && Queue()[0].deadline <= now && Short(delays) else delays == []
      modifies this`fired, this`started, list, list.elements
      ensures Linked() && (well ==> GoingWell(queue, was) && AtPlace(next))
      ensures |list.elements| == |old(list.elements)| - 1 + |delays|
      ensures DelaysOf(started) == DelaysOf(old(started)) + delays
      ensures fired == old(fired) + [Firing(old(Queue())[0], now)]
      ensures delays == [] ==> Queue() == old(Queue())[1..] && next == list.At(0)
      ensures forall i | 0 <= i < |list.elements| :: list.elements[i] in old(list.elements) || fresh(list.elements[i])
    {
      hide History, DelaysOf;
      ghost var all := Queue();
      assert all[0] in all;
      next := FireFirst();
      ghost var rest := Queue();
      if well {
        FiringIsHandled(queue, was, all, old(fired));
        RestLater(now, fired, started, cancelled, rest);
      }
      StartAll(delays);
      assert delays == [] ==> Queue() == rest;
    }

    /** A poll that began with this queue, if delays stay below 2^31. */
    ghost predicate GoingWell(queue: seq<KernelTimer>, was: seq<Firing>)
      reads this, list, list.elements
    {
      Running() && Handled(queue, was) && forall t | t in Queue() :: t in queue || StartedNow(t, now)
    }

    lemma FiringIsHandled(queue: seq<KernelTimer>, was: seq<Firing>, all: seq<KernelTimer>, before: seq<Firing>)
      requires was <= before && all != [] && Queue() == all[1..] && fired == before + [Firing(all[0], now)]
      requires all[0].deadline <= now && (all[0] in queue || StartedNow(all[0], now))
      requires forall t | t in queue :: t in all || Firing(t, now) in before[|was|..]
      requires forall f | f in before[|was|..] ::
                 f.at == now && f.timer.deadline <= now && (f.timer in queue || StartedNow(f.timer, now))
      ensures Handled(queue, was)
    {
      assert fired[|was|..] == before[|was|..] + [Firing(all[0], now)];
      forall t | t in queue
        ensures t in Queue() || Firing(t, now) in fired[|was|..]
      {
        assert t in all ==> t == all[0] || t in all[1..];
      }
    }

    /** The n-th firing of a poll, whose handler is the n-th. */
    method FireNth(handlers: seq<seq<nat>>, n: nat, ghost queue: seq<KernelTimer>, ghost was: seq<Firing>,
                   ghost before: seq<KernelTimer>, ghost well: bool, ghost quiet: bool)
      returns (next: Element?<KernelTimer>)
      requires Linked() && list.elements != [] && (well || quiet)
      requires |fired| == |was| + n && StartedAsAsked(started, before, handlers, n)
      requires well ==> GoingWell(queue, was) && AllShort(handlers) && Queue()[0].deadline <= now
      requires quiet ==> Starts(handlers, n) == 0 && IsDue(Queue()[0], ticks)
      requires quiet ==> FiredSoFar(queue, ticks, now, was, n, Queue(), fired)
      modifies this`fired, this`started, list, list.elements
      ensures Linked() && (well ==> GoingWell(queue, was) && AtPlace(next))
      ensures |fired| == |was| + n + 1 && StartedAsAsked(started, before, handlers, n + 1)
      ensures quiet ==> Starts(handlers, n + 1) == 0 && next == list.At(0)
      ensures quiet ==> FiredSoFar(queue, ticks, now, was, n + 1, Queue(), fired)
      ensures |list.elements| + Starts(handlers, n + 1) < |old(list.elements)| + Starts(handlers, n)
      ensures forall i | 0 <= i < |list.elements| :: list.elements[i] in old(list.elements) || fresh(list.elements[i])
    {
      hide History, DelaysOf, HandlerOf, AllShort, Short, Starts, FiredSoFar, StartedAsAsked, IsDue;
      hide KernelTimers.Running, KernelTimers.AtPlace, KernelTimers.GoingWell;
      HandlerIsShort(handlers, n);
      ghost var soFar, all, sent := started, Queue(), fired;
      next := Round(HandlerOf(handlers, n), queue, was, well);
      AskedStep(soFar, started, before, handlers, n);
      if quiet {
        OneMoreFired(queue, ticks, now, was, n, all, sent);
      }
    }

    /** Fires all due timers; `handlers` says for each firing which delays its handler
        starts timers with. Whatever the delays are, a poll whose handlers start nothing
        fires the timers before the first that the driver takes not to be due. */
    method PollKernelTimers(handlers: seq<seq<nat>>)
      requires Linked() && ((Running() && AllShort(handlers)) || Starts(handlers, 0) == 0)
      modifies this`fired, this`started, list, list.elements
      ensures Linked() && |old(fired)| <= |fired|
      ensures StartedAsAsked(started, old(started), handlers, |fired| - |old(fired)|)
      ensures old(Running()) && AllShort(handlers) ==> Valid() && Handled(old(Queue()), old(fired))
      ensures Starts(handlers, 0) == 0 ==> FiredTheDue(old(Queue()), ticks, now, old(fired), Queue(), fired)
      ensures forall i | 0 <= i < |list.elements| :: list.elements[i] in old(list.elements) || fresh(list.elements[i])
    {
      hide History, Requested, AllShort, Starts, FiredSoFar, StartedAsAsked, FiredTheDue;
      hide KernelTimers.Running, KernelTimers.Valid, KernelTimers.AtPlace, KernelTimers.GoingWell, KernelTimers.Handled;
      ghost var queue, was, before, well := Queue(), fired, started, Running() && AllShort(handlers);
      ghost var quiet := Starts(handlers, 0) == 0;
      NothingAsked(before, handlers);
      NothingFired(queue, ticks, now, was);
      if well {
        AtFirst();
      }
      var element := list.first;
      var n := 0;
      while element != null
        invariant Linked() && (well ==> GoingWell(queue, was) && AtPlace(element))
        invariant forall i | 0 <= i < |list.elements| ::
                    list.elements[i] in old(list.elements) || fresh(list.elements[i])
        invariant |fired| == |was| + n && StartedAsAsked(started, before, handlers, n)
        invariant quiet ==> Starts(handlers, n) == 0 && element == list.At(0)
        invariant quiet ==> FiredSoFar(queue, ticks, now, was, n, Queue(), fired)
        decreases |list.elements| + Starts(handlers, n)
      {
        if well {
          DueOrDone(element, queue, was);
        }
        var timer := element.ptr;
        assert quiet ==> timer == Queue()[0];
        if Signed(timer.elapsesAt - ticks) > 0 {
          if quiet {
            FirstNotDue(queue, ticks, now, was, n, Queue(), fired);
          }
          return;
        }
        element := FireNth(handlers, n, queue, was, before, well, quiet);
        n := n + 1;
      }
      if well {
        NothingLeft(queue, was);
      }
      if quiet {
        FirstNotDue(queue, ticks, now, was, n, Queue(), fired);
      }
    }

    method Tick()
      requires Linked()
      modifies this`ticks, this`now
      ensures Linked() && now == old(now) + 1 && (old(Valid()) ==> Running())
    {
      hide History;
      if Valid() {
        TickKeeps(now, fired, started, cancelled, Queue());
      }
      AddTicks(now, 1);
      ticks := (ticks + 1) % SPAN;
      now := now + 1;
    }

    /** The tick interrupt. */
    method InterruptHandler(handlers: seq<seq<nat>>)
      requires Linked() && ((Valid() && AllShort(handlers)) || Starts(handlers, 0) == 0)
      modifies this`ticks, this`now, this`fired, this`started, list, list.elements
      ensures Linked() && now == old(now) + 1 && |old(fired)| <= |fired|
      ensures StartedAsAsked(started, old(started), handlers, |fired| - |old(fired)|)
      ensures old(Valid()) && AllShort(handlers) ==> Valid() && Handled(old(Queue()), old(fired))
      ensures Starts(handlers, 0) == 0 ==> FiredTheDue(old(Queue()), ticks, now, old(fired), Queue(), fired)
    {
      hide *;
      ghost var queue := Queue();
      Tick();
      assert Queue() == queue;
      PollKernelTimers(handlers);
    }
  }

  /** How many timers the handlers start from the n-th firing on. */
  function Starts(handlers: seq<seq<nat>>, n: nat): nat
    decreases |handlers| - n
  {
    if n >= |handlers| then 0 else |handlers[n]| + Starts(handlers, n + 1)
  }
}
