/** The queue of pulses to be generated (CPulseQueue.cpp): bounded, first in first out, and with channel isolation
    no pulse begins before the one before it has ended. */
module PulseQueue {
  import opened Bytes

  datatype Element = Element(sm: nat, pos: byte, neg: byte, delayUntil: nat)

  /** A pulse taken from the queue: when, and whether isolation was on then. */
  datatype Release = Release(e: Element, time: nat, isolated: bool)

  const CAPACITY := 10
  const GAP := 150

  function Elements(rs: seq<Release>): (es: seq<Element>)
    ensures |es| == |rs| && forall i | 0 <= i < |rs| :: es[i] == rs[i].e
  {
    seq(|rs|, i requires 0 <= i < |rs| => rs[i].e)
  }

  /** The earliest moment for the next pulse. */
  function Ends(r: Release): nat {
    r.time + r.e.pos + r.e.neg + GAP
  }

  /** What is promised of the releases, in their order: never early, never back in time, and an isolated one only
      after the previous one has ended. */
  predicate Orderly(rs: seq<Release>) {
    && (forall i | 0 <= i < |rs| :: rs[i].e.delayUntil <= rs[i].time)
    && (forall i | 0 < i < |rs| :: rs[i - 1].time <= rs[i].time)
    && (forall i | 0 < i < |rs| && rs[i].isolated :: Ends(rs[i - 1]) <= rs[i].time)
  }

  /** If the pulse after a pulse was isolated, no later pulse overlaps it, on any channel. */
  lemma {:induction false} NoOverlap(rs: seq<Release>, i: nat, j: nat)
    requires Orderly(rs) && i < j < |rs| && rs[i + 1].isolated
    ensures rs[i].time + rs[i].e.pos + rs[i].e.neg + 150 <= rs[j].time
  {
    if j > i + 1 {
      NoOverlap(rs, i, j - 1);
    }
  }

  lemma OrderlyNext(rs: seq<Release>, r: Release, rest: seq<Element>)
    requires Orderly(rs) && r.e.delayUntil <= r.time
    requires rs != [] ==> rs[|rs| - 1].time <= r.time && (r.isolated ==> Ends(rs[|rs| - 1]) <= r.time)
    ensures Orderly(rs + [r]) && Elements(rs + [r]) + rest == Elements(rs) + ([r.e] + rest)
  {
    assert Elements(rs + [r]) == Elements(rs) + [r.e];
  }

  class Queue {
    var pulses: seq<Element>
    var nextPulse: nat
    ghost var accepted: seq<Element>
    ghost var released: seq<Release>
    ghost var clock: nat

    /** What was accepted has been released in order, or waits in order. */
    ghost predicate Valid()
      reads this
    {
      && |pulses| <= CAPACITY && accepted == Elements(released) + pulses && Orderly(released)
      && nextPulse == (if released == [] then 0 else Ends(released[|released| - 1]))
      && (released != [] ==> released[|released| - 1].time <= clock)
    }

    constructor ()
      ensures Valid() && pulses == [] && accepted == [] && released == [] && clock == 0
    {
      pulses, nextPulse, accepted, released, clock := [], 0, [], [], 0;
    }

    /** queue_pulse: a pulse that does not fit is dropped. */
    method QueuePulse(e: Element)
      requires Valid()
      modifies this`pulses, this`accepted
      ensures Valid()
      ensures if |old(pulses)| < CAPACITY then pulses == old(pulses) + [e] && accepted == old(accepted) + [e]
              else pulses == old(pulses) && accepted == old(accepted)
    {
      if |pulses| < CAPACITY {
        pulses := pulses + [e];
        accepted := accepted + [e];
      }
    }

    /** get_queued_pulse, which reads the clock up to three times while timer interrupts may queue further pulses. */
    method GetQueuedPulse(isolation: bool, t1: nat, t2: nat, t3: nat, late: seq<Element>) returns (r: seq<Element>)
      requires Valid() && clock <= t1 <= t2 <= t3
      modifies this
      ensures Valid() && clock == t3
      ensures old(pulses) == [] || old(pulses[0]).delayUntil > t1 || (isolation && t2 < old(nextPulse)) ==>
              r == [] && released == old(released) && pulses == Queued(old(pulses), late)
      ensures old(pulses) != [] && old(pulses[0]).delayUntil <= t1 && (isolation ==> t2 >= old(nextPulse)) ==>
              r == [old(pulses[0])] && released == old(released) + [Release(old(pulses[0]), t3, isolation)]
              && pulses == Queued(old(pulses), late)[1..]
    {
      hide Orderly, Elements, Queued;
      r := [];
      if pulses == [] {
        QueueAll(late);
        clock := t3;
        return;
      }
      var element := pulses[0];
      if element.delayUntil > t1 {
        QueueAll(late);
        clock := t3;
        return;
      }
      if isolation && t2 < nextPulse {
        QueueAll(late);
        clock := t3;
        return;
      }
      QueueAll(late);
      OrderlyNext(released, Release(element, t3, isolation), pulses[1..]);
      assert pulses == [element] + pulses[1..];
      pulses := pulses[1..];
      released, clock := released + [Release(element, t3, isolation)], t3;
      nextPulse := t3 + element.pos + element.neg + GAP;
      r := [element];
    }

    method QueueAll(es: seq<Element>)
      requires Valid()
      modifies this`pulses, this`accepted
      ensures Valid() && pulses == Queued(old(pulses), es)
    {
      for i := 0 to |es|
        invariant Valid() && Queued(pulses, es[i..]) == Queued(old(pulses), es)
      {
        assert es[i..][0] == es[i] && es[i..][1..] == es[i + 1..];
        QueuePulse(es[i]);
      }
    }
  }

  function Queued(pulses: seq<Element>, es: seq<Element>): (r: seq<Element>)
    ensures pulses <= r
    decreases |es|
  {
    if es == [] then pulses else Queued(if |pulses| < CAPACITY then pulses + [es[0]] else pulses, es[1..])
  }

  /** Pulses are queued in order as long as there is room for ten. */
  lemma {:induction false} QueuedIs(pulses: seq<Element>, es: seq<Element>)
    requires |pulses| <= 10
    ensures Queued(pulses, es) == if |pulses + es| <= 10 then pulses + es else (pulses + es)[..10]
    decreases |es|
  {
    if es == [] {
      assert pulses + es == pulses;
    } else {
      QueuedIs(if |pulses| < CAPACITY then pulses + [es[0]] else pulses, es[1..]);
      assert pulses + es == pulses + [es[0]] + es[1..];
    }
  }
}
