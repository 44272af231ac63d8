/**
 * The counting semaphore of the seed server, as an immutable state machine.
 *
 * The JavaScript class keeps a counter `current`, a bound `max` and a FIFO
 * queue of promise resolvers.  Here a resolver is named by a `WaiterId`,
 * `acquire` reports whether the caller was granted a slot at once or queued,
 * and `release` reports which waiter (if any) it woke.
 *
 * The model keeps the source's semantics exactly: `release` always decrements
 * the counter and then wakes the head waiter, and the woken waiter does not
 * increment it again, so a slot handed to a waiter is not recorded in
 * `current`.
 */
module Semaphores {
  import opened Wrappers

  type WaiterId = nat

  datatype Semaphore = Semaphore(max: int, current: int, queue: seq<WaiterId>)

  /** What `acquire` did for its caller. */
  datatype Grant = Granted | Queued(waiter: WaiterId)

  datatype AcquireStep = AcquireStep(grant: Grant, sem: Semaphore)

  datatype ReleaseStep = ReleaseStep(woken: Option<WaiterId>, sem: Semaphore)

  /** `new Semaphore(max)`: no slot in use and nobody waiting. */
  function New(max: int): (s: Semaphore)
    ensures s.max == max && s.current == 0 && s.queue == []
  {
    Semaphore(max, 0, [])
  }

  /** `acquire()` issued by the waiter `w`. */
  function Acquire(s: Semaphore, w: WaiterId): (r: AcquireStep)
    ensures r.sem.max == s.max
    ensures s.current < s.max ==>
      r.grant == Granted && r.sem.current == s.current + 1 && r.sem.queue == s.queue
    ensures s.max <= s.current ==>
      r.grant == Queued(w) && r.sem.current == s.current && r.sem.queue == s.queue + [w]
  {
    if s.current < s.max then
      AcquireStep(Granted, s.(current := s.current + 1))
    else
      AcquireStep(Queued(w), s.(queue := s.queue + [w]))
  }

  /** `release()`: decrement without a floor, then wake the head waiter if there is one. */
  function Release(s: Semaphore): (r: ReleaseStep)
    ensures r.sem.max == s.max
    ensures r.sem.current == s.current - 1
    ensures |s.queue| == 0 ==> r.woken == None && r.sem == s.(current := s.current - 1)
    ensures |s.queue| > 0 ==>
      r.woken == Some(s.queue[0]) && r.sem.queue == s.queue[1..] && |r.sem.queue| == |s.queue| - 1
  {
    var dec := s.(current := s.current - 1);
    if |dec.queue| > 0 then
      ReleaseStep(Some(dec.queue[0]), dec.(queue := dec.queue[1..]))
    else
      ReleaseStep(None, dec)
  }

  /** One call on the semaphore. */
  datatype Op = AcquireOp(waiter: WaiterId) | ReleaseOp

  /**
   * The record of a sequence of calls: the final state, the waiters granted
   * at once, the waiters queued, the waiters woken (in wake order) and the
   * number of `release` calls.
   */
  datatype Trace = Trace(
    final: Semaphore,
    granted: seq<WaiterId>,
    queued: seq<WaiterId>,
    woken: seq<WaiterId>,
    releases: nat)

  /** The waiters of the `acquire` calls in `ops`, in call order. */
  function Acquirers(ops: seq<Op>): (ws: seq<WaiterId>)
    ensures |ws| <= |ops|
    decreases |ops|
  {
    if |ops| == 0 then []
    else (if ops[0].AcquireOp? then [ops[0].waiter] else []) + Acquirers(ops[1..])
  }

  /** `a` is `b` with some elements dropped, the rest kept in order. */
  predicate IsSubsequence(a: seq<WaiterId>, b: seq<WaiterId>)
    decreases |b|
  {
    |a| == 0 ||
    (|b| > 0 && ((a[0] == b[0] && IsSubsequence(a[1..], b[1..])) || IsSubsequence(a, b[1..])))
  }

  /** A subsequence of `b` stays one of `[w] + b`, with or without `w` in front. */
  lemma SubsequenceExtend(w: WaiterId, a: seq<WaiterId>, b: seq<WaiterId>)
    requires IsSubsequence(a, b)
    ensures IsSubsequence(a, [w] + b)
    ensures IsSubsequence([w] + a, [w] + b)
  {
    assert ([w] + b)[1..] == b;
    assert ([w] + a)[1..] == a;
  }

  /**
   * Runs `ops` from `s`.  The contract is the semaphore's bookkeeping:
   *   - every `acquire` call is either granted at once or queued, and each
   *     group keeps the order of the calls;
   *   - every other call is a `release`;
   *   - waiters are woken strictly in queueing order (what was woken followed
   *     by what still waits is exactly what waited before followed by what
   *     was queued);
   *   - the counter moves only by immediate grants and releases, and a
   *     counter at or below `max` stays there.
   */
  function Run(s: Semaphore, ops: seq<Op>): (t: Trace)
    ensures t.final.max == s.max
    ensures |t.granted| + |t.queued| == |Acquirers(ops)|
    ensures t.releases == |ops| - |Acquirers(ops)|
    ensures t.woken + t.final.queue == s.queue + t.queued
    ensures t.final.current == s.current + |t.granted| - t.releases
    ensures s.current <= s.max ==> t.final.current <= t.final.max
    decreases |ops|
  {
    if |ops| == 0 then
      Trace(s, [], [], [], 0)
    else
      match ops[0]
      case AcquireOp(w) =>
        var a := Acquire(s, w);
        var t := Run(a.sem, ops[1..]);
        assert Acquirers(ops) == [w] + Acquirers(ops[1..]);
        if a.grant == Granted then
          t.(granted := [w] + t.granted)
        else
          assert t.woken + t.final.queue == s.queue + ([w] + t.queued);
          t.(queued := [w] + t.queued)
      case ReleaseOp =>
        var r := Release(s);
        var t := Run(r.sem, ops[1..]);
        assert Acquirers(ops) == Acquirers(ops[1..]);
        if r.woken.Some? then
          assert s.queue == [r.woken.value] + r.sem.queue;
          assert [r.woken.value] + t.woken + t.final.queue == [r.woken.value] + (t.woken + t.final.queue);
          assert [r.woken.value] + t.woken + t.final.queue == s.queue + t.queued;
          t.(woken := [r.woken.value] + t.woken, releases := t.releases + 1)
        else
          t.(releases := t.releases + 1)
  }

  /** One `acquire` call at the head of `ops` adds its waiter to one of the two groups. */
  lemma RunAcquireStep(s: Semaphore, ops: seq<Op>)
    requires |ops| > 0 && ops[0].AcquireOp?
    ensures var w := ops[0].waiter;
      var t := Run(Acquire(s, w).sem, ops[1..]);
      && Acquirers(ops) == [w] + Acquirers(ops[1..])
      && (s.current < s.max ==> Run(s, ops).granted == [w] + t.granted && Run(s, ops).queued == t.queued)
      && (s.max <= s.current ==> Run(s, ops).granted == t.granted && Run(s, ops).queued == [w] + t.queued)
  {
  }

  /** A `release` call at the head of `ops` changes neither group. */
  lemma RunReleaseStep(s: Semaphore, ops: seq<Op>)
    requires |ops| > 0 && ops[0].ReleaseOp?
    ensures var t := Run(Release(s).sem, ops[1..]);
      && Acquirers(ops) == Acquirers(ops[1..])
      && Run(s, ops).granted == t.granted && Run(s, ops).queued == t.queued
  {
  }

  /**
   * Every `acquire` call in `ops` ends up exactly once among the waiters
   * granted at once or queued.
   */
  lemma {:induction false} RunPartitionsAcquires(s: Semaphore, ops: seq<Op>)
    ensures multiset(Run(s, ops).granted + Run(s, ops).queued) == multiset(Acquirers(ops))
    decreases |ops|
  {
    if |ops| > 0 {
      if ops[0].AcquireOp? {
        var w := ops[0].waiter;
        var a := Acquire(s, w);
        var t := Run(a.sem, ops[1..]);
        var g := Run(s, ops).granted;
        var q := Run(s, ops).queued;
        RunPartitionsAcquires(a.sem, ops[1..]);
        RunAcquireStep(s, ops);
        calc {
          multiset(g + q);
          multiset(g) + multiset(q);
          multiset([w]) + multiset(t.granted) + multiset(t.queued);
          multiset([w]) + multiset(t.granted + t.queued);
          multiset([w]) + multiset(Acquirers(ops[1..]));
          multiset(Acquirers(ops));
        }
      } else {
        RunPartitionsAcquires(Release(s).sem, ops[1..]);
        RunReleaseStep(s, ops);
      }
    }
  }

  /**
   * The waiters granted at once, and the waiters queued, each appear in the
   * order in which their `acquire` calls were made.
   */
  lemma {:induction false} RunKeepsCallOrder(s: Semaphore, ops: seq<Op>)
    ensures IsSubsequence(Run(s, ops).granted, Acquirers(ops))
    ensures IsSubsequence(Run(s, ops).queued, Acquirers(ops))
    decreases |ops|
  {
    if |ops| > 0 {
      match ops[0]
      case AcquireOp(w) =>
        var a := Acquire(s, w);
        var t := Run(a.sem, ops[1..]);
        RunKeepsCallOrder(a.sem, ops[1..]);
        assert Acquirers(ops) == [w] + Acquirers(ops[1..]);
        SubsequenceExtend(w, t.granted, Acquirers(ops[1..]));
        SubsequenceExtend(w, t.queued, Acquirers(ops[1..]));
      case ReleaseOp =>
        RunKeepsCallOrder(Release(s).sem, ops[1..]);
        assert Acquirers(ops) == Acquirers(ops[1..]);
    }
  }

  /**
   * Callers whose `acquire` has resolved and who have not yet released: those
   * granted at once plus those woken, less the releases.
   */
  function Holders(t: Trace): (n: int)
  {
    |t.granted| + |t.woken| - t.releases
  }

  /**
   * From a fresh semaphore, the counter never exceeds `max`, and it falls
   * short of the number of holders by exactly the number of handoffs.
   */
  lemma CounterAccounting(max: int, ops: seq<Op>)
    requires 0 <= max
    ensures Run(New(max), ops).final.current <= max
    ensures Run(New(max), ops).final.current == Holders(Run(New(max), ops)) - |Run(New(max), ops).woken|
  {
  }

  /**
   * The counter bound does not bound the holders: with `max == 1`, a waiter
   * woken by a release and a later caller granted at once hold slots together.
   */
  lemma OverAdmission()
    ensures var t := Run(New(1), [AcquireOp(1), AcquireOp(2), ReleaseOp, AcquireOp(3)]);
      t.granted == [1, 3] && t.woken == [2] && t.releases == 1 &&
      t.final.current == 1 && t.final.queue == [] && Holders(t) == 2 > t.final.max
  {
    var ops := [AcquireOp(1), AcquireOp(2), ReleaseOp, AcquireOp(3)];
    var s0 := New(1);
    var s1 := Acquire(s0, 1).sem;
    var s2 := Acquire(s1, 2).sem;
    var s3 := Release(s2).sem;
    assert ops[1..][1..][1..][1..] == [];
    assert Run(s3, ops[1..][1..][1..]).granted == [3];
    assert Run(s2, ops[1..][1..]).woken == [2];
    assert Run(s1, ops[1..]).queued == [2];
  }
}
