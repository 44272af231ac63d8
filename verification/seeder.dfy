/**
 * The admission loop of the seed server (`processMagnetLinks`) together with
 * the per-torrent `cleanup` closure, as a sequential event-step machine.
 *
 * The WebTorrent client is an oracle: for iteration `i`, `client(i)` says
 * whether `client.get` found the torrent already added, whether getting or
 * adding threw, or whether the torrent was added.  Added torrents are named by
 * their iteration index.  After that, the environment delivers `done`,
 * `error` and progress-timer events for torrents in any order.
 *
 * The loop is in one of three phases for the magnet at index `next`:
 * about to `await semaphore.acquire()`, suspended in that await, or holding
 * the slot and about to check the link and call the client.
 */
module Seeder {
  import opened Wrappers
  import opened Semaphores
  import MagnetLinks

  /** `MAX_CONCURRENT_DOWNLOADS`, the bound given to the semaphore. */
  const MaxConcurrentDownloads: int := 3

  /** What the WebTorrent client does for one valid magnet link. */
  datatype ClientOutcome = Existing | Thrown | Added

  datatype Phase = AtAcquire | Waiting | Holding

  /** Why an iteration gave its slot back at once. */
  datatype SkipReason = InvalidLink | AlreadyAdded | ClientThrew

  /** One `semaphore.release()` call and the code path that made it. */
  datatype SlotRelease = Skip(index: nat, reason: SkipReason) | Cleanup(torrent: nat)

  /**
   * A scheduling step: the loop runs until its next suspension point, or a
   * torrent emits `done`, `error`, or its 5-second speed timer fires.
   */
  datatype Event = Advance | Done(torrent: nat) | Error(torrent: nat) | Progress(torrent: nat)

  /**
   * The loop's state: the semaphore, the index of the magnet in hand, the
   * loop's phase, the torrents whose `done`/`error` listeners are still
   * attached, every torrent ever added, the log of releases, and the number
   * of times the loop was woken from the semaphore queue.
   */
  datatype Loop = Loop(
    sem: Semaphore,
    next: nat,
    phase: Phase,
    attached: set<nat>,
    added: set<nat>,
    releases: seq<SlotRelease>,
    handoffs: nat)

  /** Before the first iteration. */
  function Init(): (st: Loop)
    ensures st.sem == New(MaxConcurrentDownloads)
    ensures st.next == 0 && st.phase == AtAcquire
    ensures st.attached == {} && st.added == {} && st.releases == [] && st.handoffs == 0
  {
    Loop(New(MaxConcurrentDownloads), 0, AtAcquire, {}, {}, [], 0)
  }

  /**
   * The decision an iteration makes once it holds its slot: `Some(reason)`
   * when it releases the slot and continues, `None` when it adds the torrent.
   */
  function Decide(magnet: string, outcome: ClientOutcome): (d: Option<SkipReason>)
  {
    if MagnetLinks.GetInfoHash(magnet).None? then Some(InvalidLink)
    else match outcome
      case Existing => Some(AlreadyAdded)
      case Thrown => Some(ClientThrew)
      case Added => None
  }

  /**
   * The rest of iteration `next` once the slot is held: a skipped magnet makes
   * exactly one release, logged against its index; an added torrent makes
   * none and keeps the slot, with its listeners attached.
   */
  function Body(magnets: seq<string>, client: nat -> ClientOutcome, st: Loop): (r: Loop)
    requires st.next < |magnets|
    ensures r.next == st.next + 1 && r.phase == AtAcquire && r.handoffs == st.handoffs
    ensures Decide(magnets[st.next], client(st.next)).Some? ==>
      && r.releases == st.releases + [Skip(st.next, Decide(magnets[st.next], client(st.next)).value)]
      && r.sem.current == st.sem.current - 1
      && r.attached == st.attached && r.added == st.added
    ensures Decide(magnets[st.next], client(st.next)).None? ==>
      && r.releases == st.releases && r.sem == st.sem
      && r.attached == st.attached + {st.next} && r.added == st.added + {st.next}
  {
    match Decide(magnets[st.next], client(st.next))
    case Some(reason) =>
      st.(sem := Release(st.sem).sem, next := st.next + 1, phase := AtAcquire,
          releases := st.releases + [Skip(st.next, reason)])
    case None =>
      st.(next := st.next + 1, phase := AtAcquire,
          attached := st.attached + {st.next}, added := st.added + {st.next})
  }

  /**
   * The `cleanup` closure run by `done` or `error`: one release, and the
   * listeners are removed.  If the release wakes the suspended loop, the loop
   * now holds a slot.
   */
  function RunCleanup(st: Loop, t: nat): (r: Loop)
    requires t in st.attached
    ensures r.releases == st.releases + [Cleanup(t)]
    ensures r.attached == st.attached - {t} && r.added == st.added && r.next == st.next
    ensures r.sem.current == st.sem.current - 1
  {
    var rel := Release(st.sem);
    var wakesLoop := rel.woken.Some? && st.phase == Waiting;
    st.(sem := rel.sem,
        attached := st.attached - {t},
        releases := st.releases + [Cleanup(t)],
        phase := if wakesLoop then Holding else st.phase,
        handoffs := if wakesLoop then st.handoffs + 1 else st.handoffs)
  }

  /**
   * One scheduling step.  Magnets are taken strictly in order, and the loop
   * moves past a magnet only after holding a slot for it.  A terminal event
   * for a torrent whose listeners are gone changes nothing, and the speed
   * timer never changes anything.
   */
  function Step(magnets: seq<string>, client: nat -> ClientOutcome, st: Loop, ev: Event): (r: Loop)
    ensures r.next == st.next || (ev.Advance? && st.phase == Holding && r.next == st.next + 1)
    ensures ev.Progress? ==> r == st
    ensures (ev.Done? || ev.Error?) && ev.torrent !in st.attached ==> r == st
    ensures (ev.Done? || ev.Error?) && ev.torrent in st.attached ==>
      r.releases == st.releases + [Cleanup(ev.torrent)] && r.attached == st.attached - {ev.torrent}
  {
    match ev
    case Advance =>
      if st.next >= |magnets| then st
      else
        match st.phase {
          case AtAcquire =>
            var a := Acquire(st.sem, st.next);
            st.(sem := a.sem, phase := if a.grant == Granted then Holding else Waiting)
          case Waiting => st
          case Holding => Body(magnets, client, st)
        }
    case Done(t) => if t in st.attached then RunCleanup(st, t) else st
    case Error(t) => if t in st.attached then RunCleanup(st, t) else st
    case Progress(_) => st
  }

  /** Runs a schedule of events from `st`. */
  function RunFrom(magnets: seq<string>, client: nat -> ClientOutcome, st: Loop, schedule: seq<Event>): (r: Loop)
    decreases |schedule|
  {
    if |schedule| == 0 then st
    else RunFrom(magnets, client, Step(magnets, client, st, schedule[0]), schedule[1..])
  }

  // ---------------------------------------------------------------------------
  // Release accounting
  // ---------------------------------------------------------------------------

  /** How many releases in `log` were made by skipping magnet `i`. */
  function SkipCount(log: seq<SlotRelease>, i: nat): (n: nat)
  {
    if |log| == 0 then 0
    else SkipCount(log[..|log| - 1], i) + (if log[|log| - 1].Skip? && log[|log| - 1].index == i then 1 else 0)
  }

  /** How many releases in `log` were made by the cleanup of torrent `t`. */
  function CleanupCount(log: seq<SlotRelease>, t: nat): (n: nat)
  {
    if |log| == 0 then 0
    else CleanupCount(log[..|log| - 1], t) + (if log[|log| - 1] == Cleanup(t) then 1 else 0)
  }

  lemma CountsOfAppend(log: seq<SlotRelease>, x: SlotRelease)
    ensures forall i :: SkipCount(log + [x], i) == SkipCount(log, i) + (if x.Skip? && x.index == i then 1 else 0)
    ensures forall t :: CleanupCount(log + [x], t) == CleanupCount(log, t) + (if x == Cleanup(t) then 1 else 0)
  {
    assert (log + [x])[..|log|] == log;
  }

  /** An entry of the log is counted by `SkipCount`. */
  lemma {:induction false} SkipInLog(log: seq<SlotRelease>, k: nat)
    requires k < |log| && log[k].Skip?
    ensures SkipCount(log, log[k].index) >= 1
    decreases |log|
  {
    if k < |log| - 1 {
      SkipInLog(log[..|log| - 1], k);
    }
  }

  /**
   * The loop's invariant.  Besides the shape of the semaphore (its queue holds
   * the loop exactly while the loop waits), it says that every magnet before
   * `next` that was not added made exactly one skip release, every torrent
   * whose listeners are gone made exactly one cleanup release, nothing else
   * released, and that the slots really held (attached torrents plus the
   * loop's own) exceed the semaphore's counter by the number of handoffs.
   */
  ghost predicate Inv(magnets: seq<string>, client: nat -> ClientOutcome, st: Loop)
  {
    && st.next <= |magnets|
    && (st.phase != AtAcquire ==> st.next < |magnets|)
    && st.sem.max == MaxConcurrentDownloads
    && st.sem.current <= st.sem.max
    && (st.phase == Waiting ==> st.sem.max <= st.sem.current)
    && st.sem.queue == (if st.phase == Waiting then [st.next] else [])
    && st.attached <= st.added
    && (forall t :: t in st.added ==> t < st.next)
    && (forall i :: 0 <= i < st.next ==>
          (i in st.added <==> Decide(magnets[i], client(i)).None?))
    && (forall i: nat :: SkipCount(st.releases, i) == (if i < st.next && i !in st.added then 1 else 0))
    && (forall t: nat :: CleanupCount(st.releases, t) == (if t in st.added && t !in st.attached then 1 else 0))
    && (forall k :: 0 <= k < |st.releases| && st.releases[k].Skip? ==>
          st.releases[k].index < |magnets| &&
          Decide(magnets[st.releases[k].index], client(st.releases[k].index)) == Some(st.releases[k].reason))
    && |st.releases| + |st.attached| == st.next
    && st.sem.current + st.handoffs == |st.attached| + (if st.phase == Holding then 1 else 0)
  }

  lemma InitInv(magnets: seq<string>, client: nat -> ClientOutcome)
    ensures Inv(magnets, client, Init())
  {
  }

  lemma AcquirePreservesInv(magnets: seq<string>, client: nat -> ClientOutcome, st: Loop)
    requires Inv(magnets, client, st) && st.phase == AtAcquire && st.next < |magnets|
    ensures Inv(magnets, client, Step(magnets, client, st, Advance))
  {
  }

  lemma BodyPreservesInv(magnets: seq<string>, client: nat -> ClientOutcome, st: Loop)
    requires Inv(magnets, client, st) && st.phase == Holding
    ensures Inv(magnets, client, Body(magnets, client, st))
  {
    var r := Body(magnets, client, st);
    var d := Decide(magnets[st.next], client(st.next));
    if d.Some? {
      CountsOfAppend(st.releases, Skip(st.next, d.value));
      assert r.releases[|st.releases|] == Skip(st.next, d.value);
    } else {
      assert st.next !in st.attached;
      assert |r.attached| == |st.attached| + 1;
    }
  }

  lemma CleanupPreservesInv(magnets: seq<string>, client: nat -> ClientOutcome, st: Loop, t: nat)
    requires Inv(magnets, client, st) && t in st.attached
    ensures Inv(magnets, client, RunCleanup(st, t))
  {
    var r := RunCleanup(st, t);
    CountsOfAppend(st.releases, Cleanup(t));
    assert r.releases[|st.releases|] == Cleanup(t);
    assert |r.attached| == |st.attached| - 1;
  }

  lemma StepPreservesInv(magnets: seq<string>, client: nat -> ClientOutcome, st: Loop, ev: Event)
    requires Inv(magnets, client, st)
    ensures Inv(magnets, client, Step(magnets, client, st, ev))
  {
    match ev
    case Advance =>
      if st.next < |magnets| {
        match st.phase
        case AtAcquire => AcquirePreservesInv(magnets, client, st);
        case Waiting =>
        case Holding => BodyPreservesInv(magnets, client, st);
      }
    case Done(t) =>
      if t in st.attached {
        CleanupPreservesInv(magnets, client, st, t);
      }
    case Error(t) =>
      if t in st.attached {
        CleanupPreservesInv(magnets, client, st, t);
      }
    case Progress(_) =>
  }

  lemma {:induction false} RunPreservesInv(magnets: seq<string>, client: nat -> ClientOutcome, st: Loop, schedule: seq<Event>)
    requires Inv(magnets, client, st)
    ensures Inv(magnets, client, RunFrom(magnets, client, st, schedule))
    decreases |schedule|
  {
    if |schedule| > 0 {
      StepPreservesInv(magnets, client, st, schedule[0]);
      RunPreservesInv(magnets, client, Step(magnets, client, st, schedule[0]), schedule[1..]);
    }
  }

  /** The loop's invariant holds in every state reachable from the start. */
  lemma ReachableInv(magnets: seq<string>, client: nat -> ClientOutcome, schedule: seq<Event>)
    ensures Inv(magnets, client, RunFrom(magnets, client, Init(), schedule))
  {
    InitInv(magnets, client);
    RunPreservesInv(magnets, client, Init(), schedule);
  }

  /**
   * Release pairing, for every schedule of events: each magnet the loop has
   * moved past released its slot at once exactly once if it was invalid,
   * already added, or threw (with the matching reason), and never otherwise;
   * each added torrent released at most once, and exactly once when its
   * listeners are gone; no release is attributed to a magnet not yet reached.
   */
  lemma ReleasePairing(magnets: seq<string>, client: nat -> ClientOutcome, schedule: seq<Event>)
    ensures var st := RunFrom(magnets, client, Init(), schedule);
      && st.next <= |magnets|
      && (forall i: nat :: i < st.next ==>
            SkipCount(st.releases, i) == (if Decide(magnets[i], client(i)).Some? then 1 else 0))
      && (forall i: nat :: st.next <= i ==> SkipCount(st.releases, i) == 0)
      && (forall t: nat :: CleanupCount(st.releases, t) <= 1)
      && (forall t: nat :: CleanupCount(st.releases, t) == 1 ==>
            t < st.next && Decide(magnets[t], client(t)) == None && t !in st.attached)
      && (forall t: nat :: t < st.next && Decide(magnets[t], client(t)) == None && t !in st.attached ==>
            CleanupCount(st.releases, t) == 1)
      && (forall k :: 0 <= k < |st.releases| && st.releases[k].Skip? ==>
            st.releases[k].index < st.next &&
            Decide(magnets[st.releases[k].index], client(st.releases[k].index)) == Some(st.releases[k].reason))
  {
    ReachableInv(magnets, client, schedule);
    var st := RunFrom(magnets, client, Init(), schedule);
    forall k | 0 <= k < |st.releases| && st.releases[k].Skip?
      ensures st.releases[k].index < st.next
    {
      SkipInLog(st.releases, k);
    }
  }

  /**
   * No leaked slot: once every magnet has been processed and no torrent
   * still has its listeners, the number of releases equals the number of
   * magnets, i.e. of resolved acquires.  The counter then reads minus the
   * number of handoffs, since a handed-off slot was never counted.
   */
  lemma NoLeakWhenDrained(magnets: seq<string>, client: nat -> ClientOutcome, schedule: seq<Event>)
    ensures var st := RunFrom(magnets, client, Init(), schedule);
      st.next == |magnets| && st.attached == {} ==>
        |st.releases| == |magnets| && st.sem.current + st.handoffs == 0
  {
    ReachableInv(magnets, client, schedule);
  }

  /**
   * The semaphore's counter stays within `MAX_CONCURRENT_DOWNLOADS`, but the
   * slots actually held (torrents with listeners plus the loop's own) exceed
   * it by the number of times the loop was woken from the queue, so the
   * torrents downloading at once are bounded only by
   * `MAX_CONCURRENT_DOWNLOADS` plus the number of handoffs.  The loop
   * only waits while at least `MAX_CONCURRENT_DOWNLOADS` torrents hold slots,
   * so some terminal event can always wake it.
   */
  lemma SlotAccounting(magnets: seq<string>, client: nat -> ClientOutcome, schedule: seq<Event>)
    ensures var st := RunFrom(magnets, client, Init(), schedule);
      && st.sem.current <= MaxConcurrentDownloads
      && |st.attached| + (if st.phase == Holding then 1 else 0) == st.sem.current + st.handoffs
      && |st.attached| <= MaxConcurrentDownloads + st.handoffs
      && (st.phase == Waiting ==> MaxConcurrentDownloads <= |st.attached|)
  {
    ReachableInv(magnets, client, schedule);
  }

  lemma {:induction false} RunFromAppend(magnets: seq<string>, client: nat -> ClientOutcome, st: Loop, a: seq<Event>, b: seq<Event>)
    ensures RunFrom(magnets, client, st, a + b) == RunFrom(magnets, client, RunFrom(magnets, client, st, a), b)
    decreases |a|
  {
    if |a| > 0 {
      assert (a + b)[0] == a[0] && (a + b)[1..] == a[1..] + b;
      RunFromAppend(magnets, client, Step(magnets, client, st, a[0]), a[1..], b);
    } else {
      assert a + b == b;
    }
  }

  /** A magnet that is added, when a slot is free, takes one acquire and no release. */
  lemma AdmitAtOnce(magnets: seq<string>, client: nat -> ClientOutcome, st: Loop)
    requires st.phase == AtAcquire && st.next < |magnets| && st.sem.current < st.sem.max
    requires Decide(magnets[st.next], client(st.next)) == None
    ensures RunFrom(magnets, client, st, [Advance, Advance]) ==
      st.(sem := st.sem.(current := st.sem.current + 1), next := st.next + 1,
          attached := st.attached + {st.next}, added := st.added + {st.next})
  {
    var s1 := Step(magnets, client, st, Advance);
    assert s1 == st.(sem := st.sem.(current := st.sem.current + 1), phase := Holding);
    var s2 := Step(magnets, client, s1, Advance);
    assert [Advance, Advance][1..] == [Advance];
    assert RunFrom(magnets, client, s1, [Advance]) == s2;
  }

  /** Links the over-admission trace relies on: five valid links, all added by the client. */
  ghost predicate FiveAddedLinks(magnets: seq<string>, client: nat -> ClientOutcome)
  {
    && |magnets| == 5
    && (forall i :: 0 <= i < |magnets| ==> MagnetLinks.GetInfoHash(magnets[i]).Some?)
    && (forall i: nat :: client(i) == Added)
  }

  /**
   * Three loop iterations, a wait, the first torrent's `done`, and two more
   * iterations.
   */
  const OverAdmissionSchedule: seq<Event> :=
    [Advance, Advance, Advance, Advance, Advance, Advance, Advance, Done(0), Advance, Advance, Advance]

  /** The first three links are admitted without waiting. */
  lemma ThreeAdmitted(magnets: seq<string>, client: nat -> ClientOutcome)
    requires FiveAddedLinks(magnets, client)
    ensures RunFrom(magnets, client, Init(), [Advance, Advance, Advance, Advance, Advance, Advance]) ==
      Loop(Semaphore(3, 3, []), 3, AtAcquire, {0, 1, 2}, {0, 1, 2}, [], 0)
  {
    var two := [Advance, Advance];
    var s0 := Init();
    assert Decide(magnets[0], client(0)) == None;
    AdmitAtOnce(magnets, client, s0);
    var s2 := RunFrom(magnets, client, s0, two);
    assert Decide(magnets[1], client(1)) == None;
    AdmitAtOnce(magnets, client, s2);
    var s4 := RunFrom(magnets, client, s2, two);
    assert Decide(magnets[2], client(2)) == None;
    AdmitAtOnce(magnets, client, s4);
    RunFromAppend(magnets, client, s0, two, two);
    RunFromAppend(magnets, client, s0, two + two, two);
    assert two + two + two == [Advance, Advance, Advance, Advance, Advance, Advance];
  }

  /**
   * The fourth link waits; the first torrent completes, and its release wakes
   * the loop, which adds the fourth link on the handed-off slot.
   */
  lemma FourthAdmittedByHandoff(magnets: seq<string>, client: nat -> ClientOutcome)
    requires FiveAddedLinks(magnets, client)
    ensures RunFrom(magnets, client, Loop(Semaphore(3, 3, []), 3, AtAcquire, {0, 1, 2}, {0, 1, 2}, [], 0),
        [Advance, Done(0), Advance]) ==
      Loop(Semaphore(3, 2, []), 4, AtAcquire, {1, 2, 3}, {0, 1, 2, 3}, [Cleanup(0)], 1)
  {
    var s6 := Loop(Semaphore(3, 3, []), 3, AtAcquire, {0, 1, 2}, {0, 1, 2}, [], 0);
    var s7 := Step(magnets, client, s6, Advance);
    assert s7 == s6.(sem := Semaphore(3, 3, [3]), phase := Waiting);
    var s8 := Step(magnets, client, s7, Done(0));
    assert s8 == Loop(Semaphore(3, 2, []), 3, Holding, {1, 2}, {0, 1, 2}, [Cleanup(0)], 1);
    assert Decide(magnets[3], client(3)) == None;
    var s9 := Step(magnets, client, s8, Advance);
    assert s9 == Loop(Semaphore(3, 2, []), 4, AtAcquire, {1, 2, 3}, {0, 1, 2, 3}, [Cleanup(0)], 1);
    var wake := [Advance, Done(0), Advance];
    assert wake[1..] == [Done(0), Advance] && wake[1..][1..] == [Advance];
  }

  /**
   * After the handoff the counter reads 2, so the fifth link is admitted at
   * once and four torrents hold slots.
   */
  lemma FifthAdmittedAtOnce(magnets: seq<string>, client: nat -> ClientOutcome)
    requires FiveAddedLinks(magnets, client)
    ensures RunFrom(magnets, client, Loop(Semaphore(3, 2, []), 4, AtAcquire, {1, 2, 3}, {0, 1, 2, 3}, [Cleanup(0)], 1),
        [Advance, Advance]) ==
      Loop(Semaphore(3, 3, []), 5, AtAcquire, {1, 2, 3, 4}, {0, 1, 2, 3, 4}, [Cleanup(0)], 1)
    ensures |{1, 2, 3, 4}| == 4
  {
    var s9 := Loop(Semaphore(3, 2, []), 4, AtAcquire, {1, 2, 3}, {0, 1, 2, 3}, [Cleanup(0)], 1);
    assert Decide(magnets[4], client(4)) == None;
    AdmitAtOnce(magnets, client, s9);
  }

  /**
   * The counter bound does not bound the downloads.  With five valid links
   * that are all added: three are admitted, the fourth waits, the first
   * completes and its release wakes the loop, the fourth is added on the
   * handed-off slot, and the fifth is admitted at once because the counter
   * reads 2.  Four torrents then hold slots while the counter reads 3.
   */
  lemma OverAdmission(magnets: seq<string>, client: nat -> ClientOutcome)
    requires FiveAddedLinks(magnets, client)
    ensures var st := RunFrom(magnets, client, Init(), OverAdmissionSchedule);
      && st.attached == {1, 2, 3, 4}
      && st.sem.current == MaxConcurrentDownloads
      && st.handoffs == 1
      && |st.attached| > MaxConcurrentDownloads
  {
    var six := [Advance, Advance, Advance, Advance, Advance, Advance];
    var wake := [Advance, Done(0), Advance];
    var two := [Advance, Advance];
    ThreeAdmitted(magnets, client);
    FourthAdmittedByHandoff(magnets, client);
    FifthAdmittedAtOnce(magnets, client);
    RunFromAppend(magnets, client, Init(), six, wake);
    RunFromAppend(magnets, client, Init(), six + wake, two);
    assert six + wake + two == OverAdmissionSchedule;
  }
}
