/** When reports go out: the slots of an interval, and the backoff after failed sends. Times are
    nanoseconds since the zero time. */
module Slots {

  const SECOND: int := 1_000_000_000
  const MAX_BACKOFF: int := 30 * 60 * SECOND

  /** `t` is the offset past a multiple of the interval. */
  ghost predicate IsSlot(t: int, interval: int, offset: int)
    requires interval > 0
  {
    exists m: int :: At(m, interval, offset) == t
  }

  /** The m-th slot. */
  function At(m: int, interval: int, offset: int): int
    requires interval > 0
  {
    m * interval + offset % interval
  }

  lemma MulOrder(m: int, n: int, c: int)
    requires c > 0 && m < n
    ensures m * c + c <= n * c
  {
    assert n * c == m * c + c + (n - m - 1) * c;
    assert (n - m - 1) * c >= 0;
  }

  lemma SlotsOrdered(m: int, n: int, interval: int, offset: int)
    requires interval > 0 && m < n
    ensures At(m, interval, offset) + interval <= At(n, interval, offset)
  {
    MulOrder(m, n, interval);
  }

  /** Being a slot is being congruent to the offset. */
  lemma SlotIffCongruent(t: int, interval: int, offset: int)
    requires interval > 0
    ensures IsSlot(t, interval, offset) <==> t % interval == offset % interval
  {
    if IsSlot(t, interval, offset) {
      var m :| At(m, interval, offset) == t;
      RemainderIs(m, interval, offset % interval);
    }
    if t % interval == offset % interval {
      assert At(t / interval, interval, offset) == t;
    }
  }

  lemma RemainderIs(m: int, c: int, r: int)
    requires c > 0 && 0 <= r < c
    ensures (m * c + r) % c == r
  {
    var t := m * c + r;
    var n := t / c;
    assert t == n * c + t % c;
    if m < n {
      MulOrder(m, n, c);
    } else if n < m {
      MulOrder(n, m, c);
    }
  }

  /** The least slot after `now`. */
  ghost predicate IsNext(t: int, now: int, interval: int, offset: int)
    requires interval > 0
  {
    && t > now && IsSlot(t, interval, offset)
    && forall u :: u > now && IsSlot(u, interval, offset) ==> t <= u
  }

  /** nextSlot: the least slot after `now`, no more than an interval away; its loop runs at most once. */
  method NextSlot(now: int, interval: int, offset: int) returns (t: int)
    requires interval > 0
    ensures IsNext(t, now, interval, offset)
    ensures now < t <= now + interval
  {
    var q := now / interval;
    t := now - now % interval + offset % interval;
    assert t == At(q, interval, offset);
    ghost var rounds := 0;
    while t <= now
      invariant 0 <= rounds <= 1 && t == At(q + rounds, interval, offset) && t <= now + interval
      invariant rounds == 1 ==> t > now
      decreases now - t
    {
      assert (q + 1) * interval == q * interval + interval;
      t := t + interval;
      rounds := rounds + 1;
    }
    LeastSlot(q + rounds, now, interval, offset);
  }

  lemma LeastSlot(m: int, now: int, interval: int, offset: int)
    requires interval > 0 && now < At(m, interval, offset) <= now + interval
    ensures IsNext(At(m, interval, offset), now, interval, offset)
  {
    forall u | u > now && IsSlot(u, interval, offset) ensures At(m, interval, offset) <= u {
      var n :| At(n, interval, offset) == u;
      if n < m { SlotsOrdered(n, m, interval, offset); }
    }
  }

  /** There is one next slot. */
  lemma NextIsUnique(t: int, u: int, now: int, interval: int, offset: int)
    requires interval > 0 && IsNext(t, now, interval, offset) && IsNext(u, now, interval, offset)
    ensures t == u
  {
  }

  // ---- The loop ----

  function Doubled(interval: int, k: nat): int {
    if k == 0 then interval else 2 * Doubled(interval, k - 1)
  }

  function Min(a: int, b: int): int { if a < b then a else b }

  /** The wait after `failures` failed sends in a row. */
  function Wait(interval: int, failures: nat): int {
    Min(Doubled(interval, Min(failures, 6)), MAX_BACKOFF)
  }

  function Power(k: nat): int {
    if k == 0 then 1 else Power(k - 1) + Power(k - 1)
  }

  lemma {:induction false} DoubledIs(interval: int, k: nat)
    ensures Doubled(interval, k) == interval * Power(k)
  {
    if k > 0 {
      DoubledIs(interval, k - 1);
      assert interval * (Power(k - 1) + Power(k - 1)) == interval * Power(k - 1) + interval * Power(k - 1);
    } else {
      assert Power(0) == 1;
    }
  }

  /** The wait doubles with each failure, six times at most, and is never more than half an hour. */
  lemma WaitIs(interval: int, failures: nat)
    ensures Wait(interval, failures) == Min(interval * Power(Min(failures, 6)), MAX_BACKOFF)
    ensures Power(0) == 1 && Power(1) == 2 && Power(2) == 4 && Power(6) == 64 && MAX_BACKOFF == 1800 * SECOND
  {
    DoubledIs(interval, Min(failures, 6));
  }

  lemma {:induction false} DoubledGrows(interval: int, k: nat)
    requires interval > 0
    ensures Doubled(interval, k) >= interval && (k > 0 ==> Doubled(interval, k) >= 2 * interval)
  {
    if k > 0 { DoubledGrows(interval, k - 1); }
  }

  /** What the loop carries from one send to the next. */
  datatype Loop = Loop(next: int, interval: int, failures: nat)

  /** A send at `now`, and its answer: an error, or the interval the server asks for in seconds. */
  datatype Send = Failed(now: int) | Acked(now: int, seconds: int)

  /** One turn of the loop: waked at the slot or later. */
  ghost predicate Turn(l: Loop, s: Send, l': Loop, offset: int)
    requires l.interval > 0
  {
    && s.now >= l.next && l'.interval > 0
    && match s
       case Failed(now) =>
         && l'.failures == l.failures + 1 && l'.interval == l.interval
         && IsNext(l'.next, now + Wait(l.interval, l'.failures) - l.interval, l.interval, offset)
       case Acked(now, seconds) =>
         && l'.failures == 0
         && l'.interval == (if 15 <= seconds <= 3600 then seconds * SECOND else l.interval)
         && IsNext(l'.next, now, l'.interval, offset)
  }

  method RunTurn(l: Loop, s: Send, offset: int) returns (l': Loop)
    requires l.interval > 0 && s.now >= l.next
    ensures Turn(l, s, l', offset)
  {
    match s
    case Failed(now) =>
      var failures := l.failures + 1;
      var wait := Wait(l.interval, failures);
      var next := NextSlot(now + wait - l.interval, l.interval, offset);
      l' := Loop(next, l.interval, failures);
    case Acked(now, seconds) =>
      var interval := if 15 <= seconds <= 3600 then seconds * SECOND else l.interval;
      var next := NextSlot(now, interval, offset);
      l' := Loop(next, interval, 0);
  }

  /** After a failed send the next slot lies within one interval before the end of the wait. */
  lemma FailedSlot(l: Loop, now: int, l': Loop, offset: int)
    requires l.interval > 0 && Turn(l, Failed(now), l', offset)
    ensures var wait := Wait(l.interval, l'.failures); now + wait - l.interval < l'.next <= now + wait
  {
    var x := now + Wait(l.interval, l'.failures) - l.interval;
    var t := NextWithin(x, l.interval, offset);
    NextIsUnique(t, l'.next, x, l.interval, offset);
  }

  /** Some slot is the next, at most an interval away. */
  lemma NextWithin(now: int, interval: int, offset: int) returns (t: int)
    requires interval > 0
    ensures IsNext(t, now, interval, offset) && t <= now + interval
  {
    var q := now / interval;
    assert now == q * interval + now % interval;
    assert (q + 1) * interval == q * interval + interval;
    var m := if At(q, interval, offset) > now then q else q + 1;
    LeastSlot(m, now, interval, offset);
    t := At(m, interval, offset);
  }

  /** A failed send goes back to its own slot, or one before, exactly when it ends within the interval less the
      wait: that long after its slot. */
  lemma ReusesSlotIff(l: Loop, now: int, l': Loop, offset: int)
    requires l.interval > 0 && Turn(l, Failed(now), l', offset) && IsSlot(l.next, l.interval, offset)
    ensures l'.next <= l.next <==> now < l.next + l.interval - Wait(l.interval, l'.failures)
  {
    FailedSlot(l, now, l', offset);
    var x := now + Wait(l.interval, l'.failures) - l.interval;
    assert IsNext(l'.next, x, l.interval, offset);
  }

  /** A send that fails at once, in its slot. */
  lemma FailsInSlot(slot: int, interval: int, offset: int, failures: nat) returns (l: Loop, l': Loop)
    requires interval > MAX_BACKOFF && IsSlot(slot, interval, offset)
    ensures l == Loop(slot, interval, failures) && Turn(l, Failed(slot), l', offset) && l'.next <= slot
  {
    var wait := Wait(interval, failures + 1);
    DoubledGrows(interval, Min(failures + 1, 6));
    var t := NextWithin(slot + wait - interval, interval, offset);
    l, l' := Loop(slot, interval, failures), Loop(t, interval, failures + 1);
    assert Turn(l, Failed(slot), l', offset);
    ReusesSlotIff(l, slot, l', offset);
  }

  /** A send that waited for a slot and failed, the last of so many in a row. */
  ghost predicate FailsFrom(l: Loop, now: int, l': Loop, interval: int, offset: int, failures: nat)
    requires interval > 0
  {
    && l.interval == interval && l.failures == failures
    && IsSlot(l.next, interval, offset) && Turn(l, Failed(now), l', offset)
  }

  /** A send that waited for a slot and failed is never retried at a time already past, if and only if the
      interval is at most the longest wait. */
  lemma RetryLaterIff(interval: int, offset: int, failures: nat)
    requires interval > 0
    ensures (forall l: Loop, now: int, l': Loop :: FailsFrom(l, now, l', interval, offset, failures) ==> l'.next > now)
       <==> interval <= MAX_BACKOFF
  {
    if interval <= MAX_BACKOFF {
      DoubledGrows(interval, Min(failures + 1, 6));
      forall l: Loop, now: int, l': Loop | FailsFrom(l, now, l', interval, offset, failures)
        ensures l'.next > now
      {
        FailedSlot(l, now, l', offset);
      }
    } else {
      var slot := At(0, interval, offset);
      assert IsSlot(slot, interval, offset);
      var l, l' := FailsInSlot(slot, interval, offset, failures);
      assert FailsFrom(l, slot, l', interval, offset, failures);
    }
  }

  /** A run of the loop. */
  ghost predicate IsRun(ls: seq<Loop>, ss: seq<Send>, offset: int) {
    && |ls| == |ss| + 1
    && (forall i :: 0 <= i < |ls| ==> ls[i].interval > 0)
    && forall i :: 0 <= i < |ss| ==> Turn(ls[i], ss[i], ls[i + 1], offset)
  }

  /** Every interval of a run is the first one or a whole number of seconds from 15 to 3600 the server asked for,
      the last it asked for since. */
  lemma {:induction false} IntervalsAccepted(ls: seq<Loop>, ss: seq<Send>, offset: int, i: nat)
    requires IsRun(ls, ss, offset) && i < |ls|
    ensures
      || (ls[i].interval == ls[0].interval && forall j :: 0 <= j < i && ss[j].Acked? ==> !(15 <= ss[j].seconds <= 3600))
      || exists k :: 0 <= k < i && ss[k].Acked? && 15 <= ss[k].seconds <= 3600 && ls[i].interval == ss[k].seconds * SECOND
                     && forall j :: k < j < i && ss[j].Acked? ==> !(15 <= ss[j].seconds <= 3600)
  {
    if i > 0 {
      IntervalsAccepted(ls, ss, offset, i - 1);
      assert Turn(ls[i - 1], ss[i - 1], ls[i], offset);
      if ss[i - 1].Acked? && 15 <= ss[i - 1].seconds <= 3600 {
        assert ls[i].interval == ss[i - 1].seconds * SECOND;
      }
    }
  }

  /** No slot is used twice: over any run with intervals up to the longest wait, acknowledged or not, each
      slot is after the one before it; so are all slots of a run without failures, whatever the intervals. */
  lemma {:induction false} SlotsIncrease(ls: seq<Loop>, ss: seq<Send>, offset: int, i: nat, j: nat)
    requires IsRun(ls, ss, offset) && i < j < |ls|
    requires forall k :: 0 <= k < |ss| ==> ss[k].Acked? || ls[k].interval <= MAX_BACKOFF
    ensures ls[i].next < ls[j].next
    decreases j
  {
    var k := j - 1;
    assert Turn(ls[k], ss[k], ls[k + 1], offset);
    if ss[k].Failed? {
      FailedSlot(ls[k], ss[k].now, ls[j], offset);
      DoubledGrows(ls[k].interval, Min(ls[j].failures, 6));
    }
    assert ls[k].next < ls[j].next;
    if i < k { SlotsIncrease(ls, ss, offset, i, k); }
  }
}
