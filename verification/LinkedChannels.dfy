/** Linking output channels (COutput.cpp): a pulse on a leading channel causes a follow-up on the linked one. */
module LinkedChannels {
  import opened Bytes
  import opened Options
  import opened PulseQueue

  const CHANNELS := 4
  const NONE: byte := 255

  datatype Link = Link(linkedChannel: byte, offsetPercent: byte)

  const UNLINKED := Link(NONE, NONE)

  /** Every entry is either reset or a link to another of the four channels. */
  predicate IsTable(t: seq<Link>) {
    |t| == CHANNELS &&
    forall c | 0 <= c < CHANNELS ::
      t[c] == UNLINKED || (t[c].linkedChannel < CHANNELS && t[c].offsetPercent <= 100)
  }

  function Next(t: seq<Link>, c: nat): Option<nat>
    requires IsTable(t) && c < CHANNELS
  {
    if t[c].linkedChannel < CHANNELS then Some(t[c].linkedChannel) else None
  }

  /** Where n follow-ups lead, if there are that many. */
  function Steps(t: seq<Link>, c: nat, n: nat): (r: Option<nat>)
    requires IsTable(t) && c < CHANNELS
    ensures r.Some? ==> r.value < CHANNELS
    decreases n
  {
    if n == 0 then Some(c)
    else match Next(t, c)
      case None => None
      case Some(d) => Steps(t, d, n - 1)
  }

  predicate Comes(t: seq<Link>, c: nat, n: nat, d: nat)
    requires IsTable(t) && c < CHANNELS
  {
    Steps(t, c, n) == Some(d)
  }

  ghost predicate Reaches(t: seq<Link>, c: nat, d: nat)
    requires IsTable(t) && c < CHANNELS
  {
    exists n: nat :: Comes(t, c, n, d)
  }

  /** No channel comes back to itself. */
  ghost predicate Acyclic(t: seq<Link>)
    requires IsTable(t)
  {
    forall c: nat, n: nat | c < CHANNELS && n >= 1 :: !Comes(t, c, n, c)
  }

  lemma {:induction false} StepsAdd(t: seq<Link>, c: nat, m: nat, n: nat)
    requires IsTable(t) && c < CHANNELS
    ensures Steps(t, c, m + n) == match Steps(t, c, m) case None => None case Some(d) => Steps(t, d, n)
    decreases m
  {
    if m > 0 && Next(t, c).Some? {
      StepsAdd(t, Next(t, c).value, m - 1, n);
    }
  }

  /** Without cycles a pulse causes at most three follow-ups. */
  lemma AtMostThree(t: seq<Link>, c: nat)
    requires IsTable(t) && c < CHANNELS && Acyclic(t)
    ensures Steps(t, c, 4).None?
  {
    if Steps(t, c, 4).Some? {
      var s := seq(5, i requires 0 <= i < 5 => Steps(t, c, i));
      Longest(t, c, 4);
      var i, j := Repetition(s);
      StepsAdd(t, c, i, j - i);
      assert Comes(t, s[i].value, j - i, s[i].value);
    }
  }

  lemma {:induction false} Longest(t: seq<Link>, c: nat, n: nat)
    requires IsTable(t) && c < CHANNELS && Steps(t, c, n).Some?
    ensures forall k: nat | k <= n :: Steps(t, c, k).Some?
  {
    forall k: nat | k <= n
      ensures Steps(t, c, k).Some?
    {
      StepsAdd(t, c, k, n - k);
    }
  }

  /** Five places among four channels. */
  lemma Repetition(s: seq<Option<nat>>) returns (i: nat, j: nat)
    requires |s| == 5 && forall k | 0 <= k < 5 :: s[k].Some? && s[k].value < CHANNELS
    ensures i < j < 5 && s[i] == s[j]
  {
    if s[0] == s[1] { return 0, 1; }
    if s[0] == s[2] { return 0, 2; }
    if s[0] == s[3] { return 0, 3; }
    if s[0] == s[4] { return 0, 4; }
    if s[1] == s[2] { return 1, 2; }
    if s[1] == s[3] { return 1, 3; }
    if s[1] == s[4] { return 1, 4; }
    if s[2] == s[3] { return 2, 3; }
    if s[2] == s[4] { return 2, 4; }
    return 3, 4;
  }

  //
  // Changing the table
  //

  /** Removing a link makes no cycle. */
  lemma RemovalKeepsAcyclic(t: seq<Link>, c: nat)
    requires IsTable(t) && c < CHANNELS && Acyclic(t)
    ensures IsTable(t[c := UNLINKED]) && Acyclic(t[c := UNLINKED])
  {
    var u := t[c := UNLINKED];
    forall a: nat, n: nat | a < CHANNELS && n >= 1
      ensures !Comes(u, a, n, a)
    {
      StepsOfFewer(t, c, a, n);
      assert !Comes(t, a, n, a);
    }
  }

  lemma {:induction false} StepsOfFewer(t: seq<Link>, c: nat, a: nat, n: nat)
    requires IsTable(t) && c < CHANNELS && a < CHANNELS
    ensures var u := t[c := UNLINKED]; Steps(u, a, n).None? || Steps(u, a, n) == Steps(t, a, n)
    decreases n
  {
    if n > 0 && a != c && Next(t, a).Some? {
      StepsOfFewer(t, c, Next(t, a).value, n - 1);
    }
  }

  /** As long as a path does not come to the channel whose link changes, it stays the same. */
  lemma {:induction false} StepsElsewhere(t: seq<Link>, lead: nat, link: Link, a: nat, n: nat)
    requires IsTable(t) && lead < CHANNELS && a < CHANNELS && IsTable(t[lead := link])
    requires forall k: nat | k < n :: !Comes(t, a, k, lead)
    ensures Steps(t[lead := link], a, n) == Steps(t, a, n)
    decreases n
  {
    if n > 0 {
      assert !Comes(t, a, 0, lead);
      if Next(t, a).Some? {
        var d := Next(t, a).value;
        forall k: nat | k < n - 1
          ensures !Comes(t, d, k, lead)
        {
          assert !Comes(t, a, k + 1, lead);
        }
        StepsElsewhere(t, lead, link, d, n - 1);
      }
    }
  }

  /** The exact condition for a new link: the table stays free of cycles just when the linked channel does not
      lead back to the leading one. */
  lemma LinkKeepsAcyclic(t: seq<Link>, lead: nat, linked: byte, offset: byte)
    requires IsTable(t) && lead < CHANNELS && linked < CHANNELS && offset <= 100 && Acyclic(t)
    ensures
      var u := t[lead := Link(linked, offset)];
      IsTable(u) && (Acyclic(u) <==> !Reaches(t, linked, lead))
  {
    var link := Link(linked, offset);
    var u := t[lead := link];
    if Reaches(t, linked, lead) {
      var n: nat :| Comes(t, linked, n, lead);
      var m := FirstVisit(t, linked, n, lead);
      StepsElsewhere(t, lead, link, linked, m);
      assert Next(u, lead) == Some(linked as nat);
      assert Comes(u, lead, m + 1, lead);
    } else {
      forall a: nat, n: nat | a < CHANNELS && n >= 1
        ensures !Comes(u, a, n, a)
      {
        NoNewCycle(t, lead, link, a, n);
      }
    }
  }

  lemma {:induction false} FirstVisit(t: seq<Link>, c: nat, n: nat, d: nat) returns (m: nat)
    requires IsTable(t) && c < CHANNELS && Comes(t, c, n, d)
    ensures m <= n && Comes(t, c, m, d) && forall k: nat | k < m :: !Comes(t, c, k, d)
    decreases n
  {
    m := n;
    if k: nat :| k < n && Comes(t, c, k, d) {
      m := FirstVisit(t, c, k, d);
    }
  }

  lemma NoNewCycle(t: seq<Link>, lead: nat, link: Link, a: nat, n: nat)
    requires IsTable(t) && lead < CHANNELS && link.linkedChannel < CHANNELS && link.offsetPercent <= 100 && Acyclic(t)
    requires !Reaches(t, link.linkedChannel, lead) && a < CHANNELS && n >= 1
    ensures !Comes(t[lead := link], a, n, a)
  {
    var u, linked := t[lead := link], link.linkedChannel;
    if Comes(u, a, n, a) {
      assert !Comes(t, a, n, a);
      if forall k: nat | k < n :: !Comes(t, a, k, lead) {
        StepsElsewhere(t, lead, link, a, n);
      } else {
        var k: nat :| k < n && Comes(t, a, k, lead);
        var m := FirstVisit(t, a, k, lead);
        StepsElsewhere(t, lead, link, a, m);
        StepsAdd(u, a, m, n);
        StepsAdd(u, a, n, m);
        assert Comes(u, lead, n, lead);
        forall i: nat | i < n - 1
          ensures !Comes(t, linked, i, lead)
        {
        }
        assert !Comes(t, linked, n - 1, lead);
        StepsElsewhere(t, lead, link, linked, n - 1);
      }
    }
  }

  /** What the check is meant to look for. */
  predicate AlreadyLinked(t: seq<Link>, lead: nat) {
    exists c :: 0 <= c < |t| && t[c].linkedChannel as int == lead
  }

  /** A channel that nothing is linked to cannot be reached from another: the intended check suffices. */
  lemma {:induction false} UnlinkedNotReached(t: seq<Link>, lead: nat, a: nat, n: nat)
    requires IsTable(t) && lead < CHANNELS && a < CHANNELS && a != lead && !AlreadyLinked(t, lead)
    ensures !Comes(t, a, n, lead)
    decreases n
  {
    if n > 0 && Next(t, a).Some? {
      assert t[a].linkedChannel as int != lead;
      UnlinkedNotReached(t, lead, Next(t, a).value, n - 1);
    }
  }

  //
  // Draining the queue
  //

  /** How many follow-ups a pulse on this channel causes, counting up to four. */
  function FollowUps(t: seq<Link>, c: nat, limit: nat): (n: nat)
    requires IsTable(t) && c < CHANNELS
    ensures n <= limit
    decreases limit
  {
    if limit == 0 || Next(t, c).None? then 0 else 1 + FollowUps(t, Next(t, c).value, limit - 1)
  }

  lemma {:induction false} FollowUpsEnd(t: seq<Link>, c: nat, limit: nat)
    requires IsTable(t) && c < CHANNELS && Steps(t, c, limit).None?
    ensures limit > 0 && FollowUps(t, c, limit) < limit
    ensures Next(t, c).Some? ==> FollowUps(t, c, limit) == 1 + FollowUps(t, Next(t, c).value, limit)
    decreases limit
  {
    if limit > 0 && Next(t, c).Some? {
      var d := Next(t, c).value;
      FollowUpsEnd(t, d, limit - 1);
      MoreLimit(t, d, limit - 1);
    }
  }

  lemma {:induction false} MoreLimit(t: seq<Link>, c: nat, limit: nat)
    requires IsTable(t) && c < CHANNELS && Steps(t, c, limit).None?
    ensures FollowUps(t, c, limit + 1) == FollowUps(t, c, limit)
    decreases limit
  {
    if limit > 0 && Next(t, c).Some? {
      MoreLimit(t, Next(t, c).value, limit - 1);
    }
  }

  predicate OnChannels(es: seq<Element>) {
    forall i | 0 <= i < |es| :: es[i].sm < CHANNELS
  }

  /** The pulses still to come of a queue: those in it, and their follow-ups. */
  function Weight(t: seq<Link>, es: seq<Element>): nat
    requires IsTable(t) && OnChannels(es)
  {
    if es == [] then 0 else 1 + FollowUps(t, es[0].sm, 4) + Weight(t, es[1..])
  }

  lemma {:induction false} WeightAppend(t: seq<Link>, es: seq<Element>, e: Element)
    requires IsTable(t) && OnChannels(es) && e.sm < CHANNELS
    ensures OnChannels(es + [e]) && Weight(t, es + [e]) == Weight(t, es) + 1 + FollowUps(t, e.sm, 4)
  {
    if es == [] {
      assert [e][1..] == [];
    } else {
      WeightAppend(t, es[1..], e);
      assert (es + [e])[1..] == es[1..] + [e];
    }
  }

  /** The follow-up of a pulse weighs one less than the pulse. */
  lemma FollowUpLighter(t: seq<Link>, c: nat)
    requires IsTable(t) && c < CHANNELS && Acyclic(t)
    ensures FollowUps(t, c, 4) <= 3
    ensures Next(t, c).Some? ==> FollowUps(t, c, 4) == 1 + FollowUps(t, Next(t, c).value, 4)
  {
    AtMostThree(t, c);
    FollowUpsEnd(t, c, 4);
  }

  /** The follow-up that a release queues, if there is room for it. */
  function FollowUp(t: seq<Link>, e: Element, isolation: bool, now: nat, queued: nat): (r: seq<Element>)
    requires IsTable(t) && e.sm < CHANNELS
    ensures r != [] ==> Next(t, e.sm) == Some(r[0].sm) && |r| == 1
  {
    var percent: nat, duration: nat := t[e.sm].offsetPercent, e.pos as int + e.neg as int;
    if isolation || Next(t, e.sm).None? || queued >= CAPACITY then []
    else [Element(t[e.sm].linkedChannel, e.pos, e.neg, now + percent * duration / 100)]
  }

  /** A follow-up is queued exactly if isolation is off, the channel has a link and the queue has room. It has the
      widths of its pulse, and is due after the given part of the pulse's duration, rounded down, and so within that
      duration. */
  lemma FollowUpDue(t: seq<Link>, e: Element, isolation: bool, now: nat, queued: nat)
    requires IsTable(t) && e.sm < CHANNELS
    ensures FollowUp(t, e, isolation, now, queued) == [] <==>
            isolation || t[e.sm].linkedChannel >= CHANNELS || queued >= CAPACITY
    ensures FollowUp(t, e, isolation, now, queued) != [] ==>
              var percent: nat, duration: nat := t[e.sm].offsetPercent, e.pos as int + e.neg as int;
              var f := FollowUp(t, e, isolation, now, queued)[0];
              && f.sm == t[e.sm].linkedChannel && f.pos == e.pos && f.neg == e.neg
              && now <= f.delayUntil <= now + duration
              && 100 * (f.delayUntil - now) <= percent * duration < 100 * (f.delayUntil - now + 1)
  {
    var percent: nat, duration: nat := t[e.sm].offsetPercent, e.pos as int + e.neg as int;
    if FollowUp(t, e, isolation, now, queued) != [] {
      assert percent * duration <= 100 * duration;
    }
  }

  lemma {:induction false} QueuedOnChannels(pulses: seq<Element>, es: seq<Element>)
    requires OnChannels(pulses) && OnChannels(es)
    ensures OnChannels(Queued(pulses, es))
    decreases |es|
  {
    if es != [] {
      QueuedOnChannels(if |pulses| < CAPACITY then pulses + [es[0]] else pulses, es[1..]);
    }
  }

  lemma NothingQueued(pulses: seq<Element>)
    ensures Queued(pulses, []) == pulses && OnChannels([])
  {
  }

  lemma QueueBound(queue: Queue, late: seq<Element>)
    requires queue.Valid()
    ensures |Queued(queue.pulses, late)| <= CAPACITY
  {
    QueuedBound(queue.pulses, late);
  }

  lemma {:induction false} QueuedBound(pulses: seq<Element>, es: seq<Element>)
    requires |pulses| <= CAPACITY
    ensures |Queued(pulses, es)| <= CAPACITY
    decreases |es|
  {
    if es != [] {
      QueuedBound(if |pulses| < CAPACITY then pulses + [es[0]] else pulses, es[1..]);
    }
  }

  lemma SplitChannels(es: seq<Element>)
    requires OnChannels(es) && es != []
    ensures es[0].sm < CHANNELS && OnChannels(es[1..])
  {
  }

  lemma ReleaseLightens(t: seq<Link>, waiting: seq<Element>, isolation: bool, now: nat)
    requires IsTable(t) && Acyclic(t) && OnChannels(waiting) && waiting != []
    ensures
      var left := waiting[1..] + FollowUp(t, waiting[0], isolation, now, |waiting| - 1);
      OnChannels(left) && Weight(t, left) < Weight(t, waiting)
  {
    hide Acyclic, FollowUp;
    var f := FollowUp(t, waiting[0], isolation, now, |waiting| - 1);
    FollowUpLighter(t, waiting[0].sm);
    if f == [] {
      assert waiting[1..] + f == waiting[1..];
    } else {
      WeightAppend(t, waiting[1..], f[0]);
      assert f == [f[0]];
    }
  }

  /** A request causes at most three follow-ups: a queue is worth at most four times its length. */
  lemma {:induction false} WeightBound(t: seq<Link>, es: seq<Element>)
    requires IsTable(t) && Acyclic(t) && OnChannels(es)
    ensures Weight(t, es) <= 4 * |es|
  {
    if es != [] {
      FollowUpLighter(t, es[0].sm);
      WeightBound(t, es[1..]);
    }
  }

  /** On a cycle the follow-ups never end. */
  lemma {:induction false} CycleNeverEnds(t: seq<Link>, c: nat, n: nat, k: nat)
    requires IsTable(t) && c < CHANNELS && n >= 1 && Comes(t, c, n, c)
    ensures Steps(t, c, k).Some?
    decreases k
  {
    if k <= n {
      Longest(t, c, n);
    } else {
      CycleNeverEnds(t, c, n, k - n);
      StepsAdd(t, c, n, k - n);
    }
  }

  /** Follow-ups from this channel never end. */
  ghost predicate Endless(t: seq<Link>, c: nat)
    requires IsTable(t) && c < CHANNELS
  {
    forall k: nat :: Steps(t, c, k).Some?
  }

  /** They never end for some channel just when there is a cycle. */
  lemma EndlessIfCyclic(t: seq<Link>)
    requires IsTable(t)
    ensures (exists c: nat :: c < CHANNELS && Endless(t, c)) <==> !Acyclic(t)
  {
    if c: nat :| c < CHANNELS && Endless(t, c) {
      assert Steps(t, c, 4).Some?;
      assert !Acyclic(t) by {
        if Acyclic(t) {
          AtMostThree(t, c);
          assert false;
        }
      }
    }
    if !Acyclic(t) {
      var c: nat, n: nat :| c < CHANNELS && n >= 1 && Comes(t, c, n, c);
      forall k: nat
        ensures Steps(t, c, k).Some?
      {
        CycleNeverEnds(t, c, n, k);
      }
      assert Endless(t, c);
    }
  }

  lemma EndlessNext(t: seq<Link>, c: nat)
    requires IsTable(t) && c < CHANNELS && Endless(t, c)
    ensures Next(t, c).Some? && Endless(t, Next(t, c).value)
  {
    assert Steps(t, c, 1).Some?;
    forall k: nat
      ensures Steps(t, Next(t, c).value, k).Some?
    {
      assert Steps(t, c, k + 1).Some?;
    }
  }

  /** A pulse waits whose follow-ups never end. */
  ghost predicate Going(t: seq<Link>, es: seq<Element>)
    requires IsTable(t)
  {
    exists e :: e in es && e.sm < CHANNELS && Endless(t, e.sm)
  }

  lemma StillGoing(t: seq<Link>, es: seq<Element>, late: seq<Element>)
    requires IsTable(t) && Going(t, es)
    ensures Going(t, Queued(es, late)) && Queued(es, late) != []
  {
    var e :| e in es && e.sm < CHANNELS && Endless(t, e.sm);
    assert e in Queued(es, late);
  }

  /** A release takes the pulse away, or leaves its follow-up. */
  lemma ReleaseGoesOn(t: seq<Link>, waiting: seq<Element>, now: nat)
    requires IsTable(t) && Going(t, waiting) && waiting != [] && waiting[0].sm < CHANNELS && |waiting| <= CAPACITY
    ensures Going(t, waiting[1..] + FollowUp(t, waiting[0], false, now, |waiting| - 1))
  {
    hide Endless, FollowUp;
    var f := FollowUp(t, waiting[0], false, now, |waiting| - 1);
    var e :| e in waiting && e.sm < CHANNELS && Endless(t, e.sm);
    if e == waiting[0] {
      EndlessNext(t, e.sm);
      FollowUpComes(t, e, now, |waiting| - 1);
      assert f[0] in waiting[1..] + f;
    } else {
      assert e in waiting[1..] && e in waiting[1..] + f;
    }
  }

  lemma FollowUpComes(t: seq<Link>, e: Element, now: nat, queued: nat)
    requires IsTable(t) && e.sm < CHANNELS && Next(t, e.sm).Some? && queued < CAPACITY
    ensures FollowUp(t, e, false, now, queued) != []
  {
  }

  //
  // The output
  //

  class Output {
    const triphase: array<Link>
    const queue: Queue
    var on: seq<bool>
    var channelIsolationLast: bool
    // Whether sync_chanel looks for existing links. Its comment says so; the loop as written never runs.
    const checksLinks: bool

    ghost predicate Valid()
      reads this, triphase, queue
      ensures Valid() ==>
                triphase.Length == CHANNELS && IsTable(triphase[..]) && queue.Valid() && OnChannels(queue.pulses)
    {
      && triphase.Length == CHANNELS && IsTable(triphase[..]) && |on| == CHANNELS
      && queue.Valid() && OnChannels(queue.pulses)
      && (forall c | 0 <= c < CHANNELS && triphase[c].linkedChannel < CHANNELS :: !on[triphase[c].linkedChannel])
      && (checksLinks ==> Acyclic(triphase[..]))
    }

    constructor (isolation: bool, checksLinks: bool)
      ensures Valid() && this.checksLinks == checksLinks && triphase[..] == seq(CHANNELS, _ => UNLINKED)
      ensures fresh(triphase) && fresh(queue) && queue.pulses == []
    {
      triphase := new Link[CHANNELS](_ => UNLINKED);
      queue := new Queue();
      on, channelIsolationLast, this.checksLinks := [false, false, false, false], isolation, checksLinks;
      new;
      assert triphase[..] == seq(CHANNELS, _ => UNLINKED);
      NoLinksAcyclic(triphase[..]);
    }

    /** reset_chanel_triphase. */
    method ResetChannel(c: nat)
      requires Valid()
      modifies triphase
      ensures Valid()
      ensures triphase[..] == if c < CHANNELS then old(triphase[..])[c := UNLINKED] else old(triphase[..])
    {
      if c < CHANNELS {
        if checksLinks {
          RemovalKeepsAcyclic(triphase[..], c);
        }
        triphase[c] := UNLINKED;
      }
    }

    /** unlink_if_linked: afterwards no channel is linked to this one. */
    method UnlinkIfLinked(channel: nat)
      requires Valid()
      modifies triphase
      ensures Valid()
      ensures forall c | 0 <= c < CHANNELS ::
        triphase[c] ==
        if old(triphase[c].linkedChannel) as int == channel && channel < CHANNELS then UNLINKED
        else old(triphase[c])
    {
      for c := 0 to CHANNELS
        invariant Valid()
        invariant forall k | 0 <= k < CHANNELS ::
            triphase[k] ==
            if k < c && old(triphase[k].linkedChannel) as int == channel && channel < CHANNELS then UNLINKED
            else old(triphase[k])
      {
        if triphase[c].linkedChannel as int == channel {
          ResetChannel(c);
        }
      }
    }

    /** on: a channel that runs by itself is not linked to any more. */
    method On(channel: nat)
      requires Valid()
      modifies this`on, triphase
      ensures Valid()
      ensures channel < CHANNELS ==>
                && on == old(on)[channel := true]
                && forall c | 0 <= c < CHANNELS :: triphase[c].linkedChannel as int != channel
    {
      if channel >= CHANNELS {
        return;
      }
      UnlinkIfLinked(channel);
      on := on[channel := true];
    }

    method Off(channel: nat)
      requires Valid()
      modifies this`on
      ensures Valid() && on == if channel < CHANNELS then old(on)[channel := false] else old(on)
    {
      if channel < CHANNELS {
        on := on[channel := false];
      }
    }

    /** sync_chanel. Without the check the table stays free of cycles under the exact condition of LinkKeepsAcyclic. */
    method SyncChannel(lead: byte, linked: byte, offset: byte, isolation: bool)
      requires Valid()
      modifies this`on, triphase
      ensures Valid()
      ensures
        var t := old(triphase[..]);
        if lead >= CHANNELS || lead == linked || offset > 100 || isolation
        || (checksLinks && AlreadyLinked(t, lead)) then
          triphase[..] == t
        else if linked >= CHANNELS then triphase[..] == t[lead := UNLINKED]
        else triphase[..] == t[lead := Link(linked, offset)] && !on[linked]
      ensures old(Acyclic(triphase[..])) ==>
        (Acyclic(triphase[..]) <==>
          triphase[..] == old(triphase[..]) || linked >= CHANNELS || !Reaches(old(triphase[..]), linked, lead))
    {
      ghost var t := triphase[..];
      if lead >= CHANNELS || lead == linked || offset > 100 || isolation {
        return;
      }
      if checksLinks {
        var found := IsLinkedChannel(lead);
        if found {
          return;
        }
      }
      if linked >= CHANNELS {
        if Acyclic(t) {
          RemovalKeepsAcyclic(t, lead);
        }
        ResetChannel(lead);
        return;
      }
      MakeLink(lead, linked, offset);
    }

    /** The last part of sync_chanel. */
    method MakeLink(lead: byte, linked: byte, offset: byte)
      requires Valid() && lead < CHANNELS && linked < CHANNELS && lead != linked && offset <= 100
      requires checksLinks ==> !AlreadyLinked(triphase[..], lead)
      modifies this`on, triphase
      ensures Valid() && triphase[..] == old(triphase[..])[lead := Link(linked, offset)] && !on[linked]
      ensures old(Acyclic(triphase[..])) ==>
                (Acyclic(triphase[..]) <==> !Reaches(old(triphase[..]), linked, lead))
    {
      hide Acyclic, Reaches, Queue.Valid, OnChannels;
      ghost var t := triphase[..];
      if Acyclic(t) {
        LinkKeepsAcyclic(t, lead, linked, offset);
        if checksLinks {
          NotLedBack(t, lead, linked);
        }
      }
      Off(linked);
      triphase[lead] := Link(linked, offset);
      assert triphase[..] == t[lead := Link(linked, offset)];
    }

    /** A change of the isolation setting drops all links. */
    method CheckIsolation(isolation: bool)
      requires Valid()
      modifies this`channelIsolationLast, triphase
      ensures Valid() && channelIsolationLast == isolation
      ensures if isolation != old(channelIsolationLast) then triphase[..] == seq(CHANNELS, _ => UNLINKED)
              else triphase[..] == old(triphase[..])
    {
      hide Acyclic, Queue.Valid, OnChannels;
      if channelIsolationLast != isolation {
        ResetChannel(0);
        ResetChannel(1);
        ResetChannel(2);
        ResetChannel(3);
        channelIsolationLast := isolation;
      }
    }

    /** loop: at most one pulse is released. Its follow-up, on the linked channel, is due after the given part of its
        duration. Without cycles the pulses still to come get fewer with every release. */
    method Loop(isolation: bool, t1: nat, t2: nat, t3: nat, now: nat, late: seq<Element>) returns (r: seq<Element>)
      requires Valid() && queue.clock <= t1 <= t2 <= t3 <= now && OnChannels(late)
      modifies this`channelIsolationLast, triphase, queue
      ensures Valid() && queue.clock == t3 && channelIsolationLast == isolation
      ensures if isolation != old(channelIsolationLast) then triphase[..] == seq(CHANNELS, _ => UNLINKED)
              else triphase[..] == old(triphase[..])
      ensures OnChannels(Queued(old(queue.pulses), late))
      ensures
        var waiting := Queued(old(queue.pulses), late);
        if r == [] then queue.pulses == waiting && queue.released == old(queue.released)
        else
          && waiting != [] && r == [waiting[0]] && r[0].sm < CHANNELS
          && queue.released == old(queue.released) + [Release(r[0], t3, isolation)]
          && queue.pulses == waiting[1..] + FollowUp(triphase[..], r[0], isolation, now, |waiting| - 1)
          && (Acyclic(triphase[..]) ==> Weight(triphase[..], queue.pulses) < Weight(triphase[..], waiting))
      ensures r != [] <==>
              && old(queue.pulses) != [] && old(queue.pulses[0]).delayUntil <= t1
              && (isolation ==> t2 >= old(queue.nextPulse))
      ensures r != [] && (isolation || triphase[r[0].sm].linkedChannel >= CHANNELS) ==>
                queue.pulses == Queued(old(queue.pulses), late)[1..]
      ensures r != [] && !isolation && triphase[r[0].sm].linkedChannel < CHANNELS ==>
                && queue.pulses != [] && queue.pulses[..|queue.pulses| - 1] == Queued(old(queue.pulses), late)[1..]
                && var f, link, e := queue.pulses[|queue.pulses| - 1], triphase[r[0].sm], r[0];
                   var percent: nat, duration: nat := link.offsetPercent, e.pos as int + e.neg as int;
                   && f.sm == link.linkedChannel && f.pos == e.pos && f.neg == e.neg
                   && now <= f.delayUntil <= now + duration
                   && 100 * (f.delayUntil - now) <= percent * duration < 100 * (f.delayUntil - now + 1)
    {
      hide Acyclic, Weight, FollowUp, Orderly, Elements, OnChannels, Queued, Queue.Valid;
      CheckIsolation(isolation);
      ghost var waiting := Queued(queue.pulses, late);
      QueuedOnChannels(queue.pulses, late);
      QueueBound(queue, late);
      r := queue.GetQueuedPulse(isolation, t1, t2, t3, late);
      if r == [] {
        return;
      }
      assert waiting == r + queue.pulses;
      SplitChannels(waiting);
      QueueFollowUp(r[0], isolation, now);
      FollowUpDue(triphase[..], r[0], isolation, now, |waiting| - 1);
      if Acyclic(triphase[..]) {
        ReleaseLightens(triphase[..], waiting, isolation, now);
      }
    }

    /** The second half of loop. */
    method QueueFollowUp(e: Element, isolation: bool, now: nat)
      requires Valid() && e.sm < CHANNELS && |queue.pulses| < CAPACITY
      modifies queue`pulses, queue`accepted
      ensures Valid()
      ensures queue.pulses == old(queue.pulses) + FollowUp(triphase[..], e, isolation, now, |old(queue.pulses)|)
    {
      hide Acyclic, Queue.Valid;
      var t := triphase[e.sm];
      if !isolation && t.linkedChannel < CHANNELS && t.offsetPercent <= 100 {
        var percent: nat, duration: nat := t.offsetPercent, e.pos as int + e.neg as int;
        var delay := percent * duration / 100;
        queue.QueuePulse(Element(t.linkedChannel, e.pos, e.neg, now + delay));
      }
    }

    /** Left alone, and with the clock going on, the queue runs empty after no more pulses than were still to come. */
    method Drain(isolation: bool, start: nat) returns (count: nat)
      requires Valid() && Acyclic(triphase[..]) && queue.clock <= start && isolation == channelIsolationLast
      modifies this`channelIsolationLast, triphase, queue
      ensures Valid() && queue.pulses == [] && triphase[..] == old(triphase[..])
      ensures |queue.released| == |old(queue.released)| + count && count <= Weight(triphase[..], old(queue.pulses))
    {
      hide Acyclic, Weight, FollowUp, Queued, Output.Valid, Queue.Valid, IsTable, Orderly, Elements;
      count := 0;
      var clock := start;
      while queue.pulses != []
        invariant Valid() && queue.clock <= clock && channelIsolationLast == isolation
        invariant triphase[..] == old(triphase[..])
        invariant count + Weight(triphase[..], queue.pulses) <= Weight(triphase[..], old(queue.pulses))
        invariant |queue.released| == |old(queue.released)| + count
        decreases Weight(triphase[..], queue.pulses)
      {
        if clock < queue.pulses[0].delayUntil {
          clock := queue.pulses[0].delayUntil;
        }
        if clock < queue.nextPulse {
          clock := queue.nextPulse;
        }
        NothingQueued(queue.pulses);
        var r := Loop(isolation, clock, clock, clock, clock, []);
        count := count + 1;
      }
    }

    /** With a cycle it never does: whatever is requested meanwhile and however the clock goes on, a pulse whose
        follow-ups never end leaves one behind. */
    method KeepsGoing(turns: seq<Turn>)
      requires Valid() && !channelIsolationLast && Going(triphase[..], queue.pulses) && Timely(queue.clock, turns)
      modifies this`channelIsolationLast, triphase, queue
      ensures Valid() && triphase[..] == old(triphase[..]) && !channelIsolationLast
      ensures Going(triphase[..], queue.pulses) && queue.pulses != []
    {
      hide Output.Valid, Queue.Valid, IsTable, Going, OnChannels, Acyclic, FollowUp, Queued, Weight;
      GoingIsSome(triphase[..], queue.pulses);
      for i := 0 to |turns|
        invariant Valid() && triphase[..] == old(triphase[..]) && !channelIsolationLast
        invariant Going(triphase[..], queue.pulses)
        invariant queue.pulses != [] && Timely(queue.clock, turns[i..])
      {
        var t := turns[i];
        TimelyNext(queue.clock, turns[i..]);
        assert turns[i..][1..] == turns[i + 1..];
        ghost var released := GoOn(t);
      }
    }

    /** One turn of the loop. */
    method GoOn(t: Turn) returns (released: bool)
      requires Valid() && !channelIsolationLast && Going(triphase[..], queue.pulses)
      requires queue.clock <= t.t1 <= t.t2 <= t.t3 <= t.now && OnChannels(t.late)
      modifies this`channelIsolationLast, triphase, queue
      ensures Valid() && triphase[..] == old(triphase[..]) && !channelIsolationLast && queue.clock == t.t3
      ensures Going(triphase[..], queue.pulses) && queue.pulses != []
      ensures |queue.released| == |old(queue.released)| + if released then 1 else 0
      ensures old(queue.pulses) != [] && old(queue.pulses[0]).delayUntil <= t.t1 ==> released
    {
      hide Queue.Valid, IsTable, Going, Acyclic, FollowUp, Queued, Weight;
      ghost var waiting := Queued(queue.pulses, t.late);
      StillGoing(triphase[..], queue.pulses, t.late);
      QueueBound(queue, t.late);
      var r := Loop(false, t.t1, t.t2, t.t3, t.now, t.late);
      released := r != [];
      if released {
        ReleaseGoesOn(triphase[..], waiting, t.now);
      }
      GoingIsSome(triphase[..], queue.pulses);
    }

    /** So the number of pulses that it causes has no bound. */
    method CausesAny(n: nat, start: nat)
      requires Valid() && !channelIsolationLast && Going(triphase[..], queue.pulses) && queue.clock <= start
      modifies this`channelIsolationLast, triphase, queue
      ensures Valid() && |queue.released| == |old(queue.released)| + n && Going(triphase[..], queue.pulses)
    {
      hide Output.Valid, Queue.Valid, IsTable, Going, OnChannels, Acyclic;
      var clock := start;
      GoingIsSome(triphase[..], queue.pulses);
      for i := 0 to n
        invariant Valid() && !channelIsolationLast && Going(triphase[..], queue.pulses) && queue.pulses != []
        invariant queue.clock <= clock && |queue.released| == |old(queue.released)| + i
      {
        if clock < queue.pulses[0].delayUntil {
          clock := queue.pulses[0].delayUntil;
        }
        NothingQueued([]);
        var released := GoOn(Turn(clock, clock, clock, clock, []));
      }
    }

    /** The loop over the channels, as intended. */
    method IsLinkedChannel(channel: nat) returns (found: bool)
      requires Valid()
      ensures found == AlreadyLinked(triphase[..], channel)
    {
      for c := 0 to CHANNELS
        invariant forall k | 0 <= k < c :: triphase[k].linkedChannel as int != channel
      {
        if triphase[c].linkedChannel as int == channel {
          assert triphase[..][c].linkedChannel as int == channel;
          return true;
        }
      }
      return false;
    }
  }

  /** What the loop finds in one turn: its readings of the clock, and the pulses that are requested meanwhile. */
  datatype Turn = Turn(t1: nat, t2: nat, t3: nat, now: nat, late: seq<Element>)

  predicate Timely(clock: nat, turns: seq<Turn>)
    decreases |turns|
  {
    turns != [] ==>
      var t := turns[0];
      clock <= t.t1 <= t.t2 <= t.t3 <= t.now && OnChannels(t.late) && Timely(t.t3, turns[1..])
  }

  lemma TimelyNext(clock: nat, turns: seq<Turn>)
    requires turns != [] && Timely(clock, turns)
    ensures
      var t := turns[0];
      clock <= t.t1 <= t.t2 <= t.t3 <= t.now && OnChannels(t.late) && Timely(t.t3, turns[1..])
  {
  }

  lemma GoingIsSome(t: seq<Link>, es: seq<Element>)
    requires IsTable(t) && Going(t, es)
    ensures es != []
  {
  }

  lemma NotLedBack(t: seq<Link>, lead: nat, linked: nat)
    requires IsTable(t) && lead < CHANNELS && linked < CHANNELS && lead != linked && !AlreadyLinked(t, lead)
    ensures !Reaches(t, linked, lead)
  {
    if Reaches(t, linked, lead) {
      var n: nat :| Comes(t, linked, n, lead);
      UnlinkedNotReached(t, lead, linked, n);
    }
  }

  lemma NoLinksAcyclic(t: seq<Link>)
    requires IsTable(t) && forall c | 0 <= c < CHANNELS :: t[c] == UNLINKED
    ensures Acyclic(t)
  {
    forall c: nat, n: nat | c < CHANNELS && n >= 1
      ensures !Comes(t, c, n, c)
    {
      assert Next(t, c).None?;
    }
  }

  /** As written, without the check: two messages that link 0 to 1 and 1 to 0 are both accepted. */
  method CycleAccepted() returns (out: Output)
    ensures out.Valid() && Comes(out.triphase[..], 0, 2, 0) && !Acyclic(out.triphase[..])
  {
    out := new Output(false, false);
    out.SyncChannel(0, 1, 50, false);
    out.SyncChannel(1, 0, 50, false);
    assert out.triphase[..][0] == Link(1, 50) && out.triphase[..][1] == Link(0, 50);
    assert Steps(out.triphase[..], 1, 1) == Some(0);
    assert Comes(out.triphase[..], 0, 2, 0);
  }
}
