/** The lease table of the DHCP server (dhcpserver.c): allocation as in sections 4.3.1 and 4.3.2 of RFC 2131, with
    expiry times of 16 bits compared modulo 2^32. Time is in milliseconds since start and not bounded; the clock
    shows its lower 32 bits. */
module DhcpLeases {
  import opened Bytes
  import opened Options

  const BASE_IP := 16
  const MAX_IP := 8
  const LEASE_MS := 86_400_000
  const WRAP := 0x1_0000_0000
  const HALF := 0x8000_0000

  type Mac = s: seq<byte> | |s| == 6 witness [0, 0, 0, 0, 0, 0]

  const NOBODY: Mac := [0, 0, 0, 0, 0, 0]

  datatype Lease = Lease(mac: Mac, expiry: nat)

  function Ticks(now: nat): nat {
    now % WRAP
  }

  /** What is recorded when a lease is granted. */
  function ExpiryAt(now: nat): nat {
    (Ticks(now) + LEASE_MS) % WRAP / 0x1_0000
  }

  /** The test of the recorded expiry against the clock: the difference, as a signed 32-bit number, is negative. */
  predicate Expired(expiry: nat, now: nat) {
    (expiry * 0x1_0000 + 0xFFFF - Ticks(now)) % WRAP >= HALF
  }

  /** How much later than its 24 hours a lease ends, for rounding. */
  function Slack(granted: nat): (s: nat)
    ensures s <= 0xFFFF
  {
    0xFFFF - (granted + LEASE_MS) % 0x1_0000
  }

  /** The test is exact for as long as the difference fits into 31 bits, wherever the clock wraps: a lease has
      expired just when more than 24 hours, and up to 65535 ms more, have passed. */
  lemma ExpiryExact(granted: nat, elapsed: nat)
    requires elapsed <= LEASE_MS + HALF
    ensures Expired(ExpiryAt(granted), granted + elapsed) <==> elapsed > LEASE_MS + Slack(granted)
  {
    var end := granted + LEASE_MS;
    TicksAdd(granted, LEASE_MS);
    var e := ExpiryAt(granted) * 0x1_0000 + 0xFFFF;
    LastOfRound(end);
    var q := end / WRAP;
    var r := (granted + elapsed) / WRAP;
    var d := LEASE_MS + Slack(granted) - elapsed;
    assert e - Ticks(granted + elapsed) == d + (r - q) * WRAP;
    SameModulo(d, r - q);
    if d < 0 {
      assert d % WRAP == d + WRAP;
    } else {
      assert d % WRAP == d;
    }
  }

  lemma TicksAdd(a: nat, b: nat)
    ensures (Ticks(a) + b) % WRAP == (a + b) % WRAP
  {
    var q := a / WRAP;
    assert a == q * WRAP + Ticks(a);
    SameModulo(Ticks(a) + b, q);
  }

  lemma SameModulo(x: int, k: int)
    ensures (x + k * WRAP) % WRAP == x % WRAP
  {
  }

  /** Dropping the lower 16 bits and filling them with ones. */
  lemma LastOfRound(end: nat)
    ensures end % WRAP / 0x1_0000 * 0x1_0000 + 0xFFFF == end - end / WRAP * WRAP + (0xFFFF - end % 0x1_0000)
  {
    var t := end % WRAP;
    assert t == end - end / WRAP * WRAP;
    assert end % 0x1_0000 == t % 0x1_0000 by {
      var q := end / WRAP;
      assert end == t + q * 0x1_0000 * 0x1_0000;
    }
    assert t == t / 0x1_0000 * 0x1_0000 + t % 0x1_0000;
  }

  /** Never before 24 hours, and always 65536 ms after them. */
  lemma ExpiryBounds(granted: nat, elapsed: nat)
    requires elapsed <= LEASE_MS + HALF
    ensures Expired(ExpiryAt(granted), granted + elapsed) ==> elapsed > LEASE_MS
    ensures elapsed > LEASE_MS + 0xFFFF ==> Expired(ExpiryAt(granted), granted + elapsed)
  {
    ExpiryExact(granted, elapsed);
  }

  //
  // The table
  //

  predicate IsTable(ls: seq<Lease>, clock: seq<nat>) {
    |ls| == |clock| == MAX_IP
  }

  /** The search of DHCPDISCOVER from an entry on, with one reading of the clock per entry: the table it leaves and
      the entry it offers, or MAX_IP for none. */
  function Search(ls: seq<Lease>, mac: Mac, clock: seq<nat>, i: nat, yi: nat): (r: (seq<Lease>, nat))
    requires IsTable(ls, clock) && i <= MAX_IP && yi <= MAX_IP
    ensures IsTable(r.0, clock) && r.1 <= MAX_IP
    decreases MAX_IP - i
  {
    if i == MAX_IP then (ls, yi)
    else if ls[i].mac == mac then (ls, i)
    else if yi < MAX_IP then Search(ls, mac, clock, i + 1, yi)
    else if Expired(ls[i].expiry, clock[i]) then Search(ls[i := ls[i].(mac := NOBODY)], mac, clock, i + 1, i)
    else Search(ls, mac, clock, i + 1, if ls[i].mac == NOBODY then i else yi)
  }

  /** An entry changes only when its lease has expired, and then it is cleared; the client's own never does. */
  lemma {:induction false} SearchKeeps(ls: seq<Lease>, mac: Mac, clock: seq<nat>, i: nat, yi: nat, k: nat)
    requires IsTable(ls, clock) && i <= MAX_IP && yi <= MAX_IP && k < MAX_IP
    ensures
      var now := Search(ls, mac, clock, i, yi).0[k];
      now == ls[k] || (now == Lease(NOBODY, ls[k].expiry) && Expired(ls[k].expiry, clock[k]) && ls[k].mac != mac)
    decreases MAX_IP - i
  {
    if i < MAX_IP && ls[i].mac != mac {
      if yi < MAX_IP {
        SearchKeeps(ls, mac, clock, i + 1, yi, k);
      } else if Expired(ls[i].expiry, clock[i]) {
        SearchKeeps(ls[i := ls[i].(mac := NOBODY)], mac, clock, i + 1, i, k);
      } else {
        SearchKeeps(ls, mac, clock, i + 1, if ls[i].mac == NOBODY then i else yi, k);
      }
    }
  }

  /** A client that is in the table is offered its recorded address, whether or not the lease has expired. */
  lemma {:induction false} RecordedOffered(ls: seq<Lease>, mac: Mac, clock: seq<nat>, i: nat, yi: nat, k: nat)
    requires IsTable(ls, clock) && i <= k < MAX_IP && yi <= MAX_IP && mac != NOBODY
    requires ls[k].mac == mac && forall j | i <= j < k :: ls[j].mac != mac
    ensures Search(ls, mac, clock, i, yi).1 == k
    decreases MAX_IP - i
  {
    if i < k {
      if yi < MAX_IP {
        RecordedOffered(ls, mac, clock, i + 1, yi, k);
      } else if Expired(ls[i].expiry, clock[i]) {
        RecordedOffered(ls[i := ls[i].(mac := NOBODY)], mac, clock, i + 1, i, k);
      } else {
        RecordedOffered(ls, mac, clock, i + 1, if ls[i].mac == NOBODY then i else yi, k);
      }
    }
  }

  /** Any other client is offered the first entry that is free or has expired, which is then free; none is offered
      just when there is no such entry. */
  lemma {:induction false} FreeOffered(ls: seq<Lease>, mac: Mac, clock: seq<nat>, i: nat)
    requires IsTable(ls, clock) && i <= MAX_IP && forall j | i <= j < MAX_IP :: ls[j].mac != mac
    ensures
      var (now, yi) := Search(ls, mac, clock, i, MAX_IP);
      && (yi < MAX_IP ==>
          i <= yi && now[yi].mac == NOBODY && (ls[yi].mac == NOBODY || Expired(ls[yi].expiry, clock[yi])))
      && forall j | i <= j < yi :: ls[j].mac != NOBODY && !Expired(ls[j].expiry, clock[j]) && now[j] == ls[j]
    decreases MAX_IP - i
  {
    hide Expired, Search;
    SearchAt(ls, mac, clock, i, MAX_IP);
    if i < MAX_IP {
      if Expired(ls[i].expiry, clock[i]) {
        Found(ls[i := ls[i].(mac := NOBODY)], mac, clock, i + 1, i);
      } else if ls[i].mac == NOBODY {
        Found(ls, mac, clock, i + 1, i);
      } else {
        FreeOffered(ls, mac, clock, i + 1);
        SearchKeeps(ls, mac, clock, i + 1, MAX_IP, i);
        EarlierKept(ls, mac, clock, i + 1, MAX_IP, i);
      }
    }
  }

  /** One entry of the search. */
  lemma SearchAt(ls: seq<Lease>, mac: Mac, clock: seq<nat>, i: nat, yi: nat)
    requires IsTable(ls, clock) && i <= MAX_IP && yi <= MAX_IP
    ensures Search(ls, mac, clock, i, yi) ==
            if i == MAX_IP then (ls, yi)
            else if ls[i].mac == mac then (ls, i)
            else if yi < MAX_IP then Search(ls, mac, clock, i + 1, yi)
            else if Expired(ls[i].expiry, clock[i]) then Search(ls[i := ls[i].(mac := NOBODY)], mac, clock, i + 1, i)
            else Search(ls, mac, clock, i + 1, if ls[i].mac == NOBODY then i else yi)
  {
    hide Expired;
  }

  lemma {:induction false} Found(ls: seq<Lease>, mac: Mac, clock: seq<nat>, i: nat, yi: nat)
    requires IsTable(ls, clock) && i <= MAX_IP && yi < MAX_IP && forall j | i <= j < MAX_IP :: ls[j].mac != mac
    ensures Search(ls, mac, clock, i, yi) == (ls, yi)
    decreases MAX_IP - i
  {
    if i < MAX_IP {
      Found(ls, mac, clock, i + 1, yi);
    }
  }

  lemma {:induction false} EarlierKept(ls: seq<Lease>, mac: Mac, clock: seq<nat>, i: nat, yi: nat, k: nat)
    requires IsTable(ls, clock) && i <= MAX_IP && yi <= MAX_IP && k < i
    ensures Search(ls, mac, clock, i, yi).0[k] == ls[k]
    decreases MAX_IP - i
  {
    if i < MAX_IP && ls[i].mac != mac {
      if yi < MAX_IP {
        EarlierKept(ls, mac, clock, i + 1, yi, k);
      } else if Expired(ls[i].expiry, clock[i]) {
        EarlierKept(ls[i := ls[i].(mac := NOBODY)], mac, clock, i + 1, i, k);
      } else {
        EarlierKept(ls, mac, clock, i + 1, if ls[i].mac == NOBODY then i else yi, k);
      }
    }
  }

  /** Which entry a DHCPREQUEST may have: the one it names, if that is the client's own or free. */
  function Granted(ls: seq<Lease>, serverIp: seq<byte>, mac: Mac, requested: Option<seq<byte>>): Option<nat>
    requires |ls| == MAX_IP && |serverIp| == 4 && (requested.Some? ==> |requested.value| == 4)
  {
    if requested.None? || requested.value[..3] != serverIp[..3] then None
    else
      var yi: nat := (requested.value[3] - BASE_IP) % 256;
      if yi >= MAX_IP || (ls[yi].mac != mac && ls[yi].mac != NOBODY) then None else Some(yi)
  }

  class Server {
    const ip: seq<byte>
    const lease: array<Lease>

    ghost predicate Valid()
      reads this, lease
    {
      lease.Length == MAX_IP && |ip| == 4
    }

    constructor (ip: seq<byte>)
      requires |ip| == 4
      ensures Valid() && fresh(lease) && this.ip == ip
      ensures forall i | 0 <= i < MAX_IP :: lease[i] == Lease(NOBODY, 0)
    {
      this.ip := ip;
      lease := new Lease[MAX_IP](_ => Lease(NOBODY, 0));
    }

    /** The DHCPDISCOVER branch: the last octet of the address offered, if there is one. */
    method Discover(mac: Mac, clock: seq<nat>) returns (offer: Option<nat>)
      requires Valid() && |clock| == MAX_IP
      modifies lease
      ensures Valid()
      ensures
        var (now, yi) := Search(old(lease[..]), mac, clock, 0, MAX_IP);
        lease[..] == now && offer == if yi == MAX_IP then None else Some(BASE_IP + yi)
    {
      hide Expired, Search;
      var yi: nat := MAX_IP;
      var i := 0;
      while i < MAX_IP
        invariant Valid() && 0 <= i <= MAX_IP && yi <= MAX_IP
        invariant Search(lease[..], mac, clock, i, yi) == Search(old(lease[..]), mac, clock, 0, MAX_IP)
      {
        SearchAt(lease[..], mac, clock, i, yi);
        if lease[i].mac == mac {
          yi := i;
          break;
        }
        if yi == MAX_IP {
          if lease[i].mac == NOBODY {
            yi := i;
          }
          if Expired(lease[i].expiry, clock[i]) {
            ghost var before := lease[..];
            lease[i] := lease[i].(mac := NOBODY);
            assert lease[..] == before[i := before[i].(mac := NOBODY)];
            yi := i;
          }
        }
        i := i + 1;
      }
      SearchAt(lease[..], mac, clock, i, yi);
      if yi == MAX_IP {
        return None;
      }
      offer := Some(BASE_IP + yi);
    }

    /** The DHCPREQUEST branch: the last octet of the address acknowledged, if the request is granted. */
    method Request(mac: Mac, requested: Option<seq<byte>>, now: nat) returns (ack: Option<nat>)
      requires Valid() && (requested.Some? ==> |requested.value| == 4)
      modifies lease
      ensures Valid()
      ensures
        match Granted(old(lease[..]), ip, mac, requested)
        case None => ack == None && lease[..] == old(lease[..])
        case Some(yi) => ack == Some(BASE_IP + yi) && lease[..] == old(lease[..])[yi := Lease(mac, ExpiryAt(now))]
      ensures ack.Some? <==>
              && requested.Some? && requested.value[..3] == ip[..3] && 16 <= requested.value[3] < 24
              && (old(lease[requested.value[3] - 16].mac) == mac
                  || old(lease[requested.value[3] - 16].mac) == [0, 0, 0, 0, 0, 0])
      ensures ack.Some? ==>
                && ack.value == requested.value[3]
                && lease[requested.value[3] - 16] == Lease(mac, ExpiryAt(now))
                && forall i | 0 <= i < MAX_IP && i != requested.value[3] - 16 :: lease[i] == old(lease[i])
      ensures ack.None? ==> forall i | 0 <= i < MAX_IP :: lease[i] == old(lease[i])
    {
      if requested.None? {
        return None;
      }
      var o := requested.value;
      if o[..3] != ip[..3] {
        return None;
      }
      var yi := (o[3] - BASE_IP) % 256;
      if yi >= MAX_IP {
        return None;
      }
      if lease[yi].mac == mac {
      } else if lease[yi].mac == NOBODY {
        lease[yi] := lease[yi].(mac := mac);
      } else {
        return None;
      }
      lease[yi] := lease[yi].(expiry := (Ticks(now) + LEASE_MS) % WRAP / 0x1_0000);
      ack := Some(BASE_IP + yi);
    }
  }

  //
  // Whole runs
  //

  /** The table, and when each entry was last granted. */
  datatype State = State(ls: seq<Lease>, granted: seq<nat>)

  datatype Event = Discovered(mac: Mac, clock: seq<nat>) | Requested(mac: Mac, requested: Option<seq<byte>>, now: nat)

  predicate Well(e: Event) {
    match e
    case Discovered(_, clock) => |clock| == MAX_IP
    case Requested(_, requested, _) => requested.Some? ==> |requested.value| == 4
  }

  /** The first and the last reading of the clock for an event. */
  function Begins(e: Event): nat
    requires Well(e)
  {
    match e case Discovered(_, clock) => clock[0] case Requested(_, _, now) => now
  }

  function Ends(e: Event): nat
    requires Well(e)
  {
    match e case Discovered(_, clock) => clock[MAX_IP - 1] case Requested(_, _, now) => now
  }

  predicate ClockGoesOn(e: Event)
    requires Well(e)
  {
    e.Discovered? ==> forall i, j | 0 <= i < j < MAX_IP :: e.clock[i] <= e.clock[j]
  }

  /** The time after a run that began at this time. */
  function Until(from: nat, es: seq<Event>): nat
    requires AllWell(es)
  {
    if es == [] then from else Ends(es[|es| - 1])
  }

  /** The clock does not run backwards. */
  predicate Timed(from: nat, es: seq<Event>)
    requires AllWell(es)
  {
    forall i | 0 <= i < |es| :: Until(from, es[..i]) <= Begins(es[i]) && ClockGoesOn(es[i])
  }

  predicate AllWell(es: seq<Event>) {
    forall i | 0 <= i < |es| :: Well(es[i])
  }

  predicate Consistent(s: State) {
    |s.ls| == |s.granted| == MAX_IP
    && forall i | 0 <= i < MAX_IP && s.ls[i].mac != NOBODY :: s.ls[i].expiry == ExpiryAt(s.granted[i])
  }

  function After(s: State, ip: seq<byte>, e: Event): (r: State)
    requires Consistent(s) && Well(e) && |ip| == 4
    ensures |r.ls| == |r.granted| == MAX_IP
  {
    match e
    case Discovered(mac, clock) => s.(ls := Search(s.ls, mac, clock, 0, MAX_IP).0)
    case Requested(mac, requested, now) =>
      match Granted(s.ls, ip, mac, requested)
      case None => s
      case Some(yi) => State(s.ls[yi := Lease(mac, ExpiryAt(now))], s.granted[yi := now])
  }

  lemma AfterConsistent(s: State, ip: seq<byte>, e: Event)
    requires Consistent(s) && Well(e) && |ip| == 4
    ensures Consistent(After(s, ip, e))
  {
    hide Expired, ExpiryAt;
    if e.Discovered? {
      forall i | 0 <= i < MAX_IP && After(s, ip, e).ls[i].mac != NOBODY
        ensures After(s, ip, e).ls[i].expiry == ExpiryAt(s.granted[i])
      {
        SearchKeeps(s.ls, e.mac, e.clock, 0, MAX_IP, i);
      }
    }
  }

  function AfterAll(s: State, ip: seq<byte>, es: seq<Event>): (r: State)
    requires Consistent(s) && AllWell(es) && |ip| == 4
    ensures Consistent(r) && |r.ls| == MAX_IP
  {
    if es == [] then s
    else
      var before := AfterAll(s, ip, es[..|es| - 1]);
      AfterConsistent(before, ip, es[|es| - 1]);
      After(before, ip, es[|es| - 1])
  }

  /** Every lease was granted in the past. */
  predicate GrantedBy(s: State, now: nat)
    requires Consistent(s)
  {
    forall i | 0 <= i < MAX_IP && s.ls[i].mac != NOBODY :: s.granted[i] <= now
  }

  lemma {:induction false} GrantedInThePast(s: State, ip: seq<byte>, es: seq<Event>, from: nat)
    requires Consistent(s) && AllWell(es) && |ip| == 4 && GrantedBy(s, from) && Timed(from, es)
    ensures GrantedBy(AfterAll(s, ip, es), Until(from, es))
  {
    hide Expired, ExpiryAt;
    if es != [] {
      var init, last := es[..|es| - 1], es[|es| - 1];
      TimedPrefix(from, es, |es| - 1);
      GrantedInThePast(s, ip, init, from);
      GrantedAfter(AfterAll(s, ip, init), ip, last, Until(from, init));
    }
  }

  lemma GrantedAfter(s: State, ip: seq<byte>, e: Event, now: nat)
    requires Consistent(s) && Well(e) && |ip| == 4 && GrantedBy(s, now) && now <= Begins(e) && ClockGoesOn(e)
    ensures Consistent(After(s, ip, e)) && GrantedBy(After(s, ip, e), Ends(e))
  {
    hide Expired, ExpiryAt;
    AfterConsistent(s, ip, e);
    if e.Discovered? {
      assert e.clock[0] <= e.clock[MAX_IP - 1];
      forall i | 0 <= i < MAX_IP && After(s, ip, e).ls[i].mac != NOBODY
        ensures s.granted[i] <= Ends(e)
      {
        SearchKeeps(s.ls, e.mac, e.clock, 0, MAX_IP, i);
      }
    }
  }

  lemma TimedPrefix(from: nat, es: seq<Event>, k: nat)
    requires k <= |es| && AllWell(es) && Timed(from, es)
    ensures AllWell(es[..k]) && Timed(from, es[..k])
    ensures k < |es| ==> Until(from, es[..k]) <= Begins(es[k]) && ClockGoesOn(es[k])
  {
    forall i | 0 <= i < k
      ensures Until(from, es[..k][..i]) <= Begins(es[..k][i]) && ClockGoesOn(es[..k][i])
    {
      assert es[..k][..i] == es[..i];
    }
  }

  /** At some moment of the run a DHCPDISCOVER finds that the lease of entry i, held by this client, has expired. */
  ghost predicate ClearedAt(s: State, ip: seq<byte>, es: seq<Event>, i: nat, holder: Mac, k: nat)
    requires Consistent(s) && AllWell(es) && |ip| == 4 && i < MAX_IP
  {
    k < |es| && es[k].Discovered? &&
    var before := AfterAll(s, ip, es[..k]);
    before.ls[i].mac == holder && Expired(ExpiryAt(before.granted[i]), es[k].clock[i])
  }

  lemma {:induction false} HeldUntilCleared(s: State, ip: seq<byte>, es: seq<Event>, i: nat, holder: Mac)
    requires Consistent(s) && AllWell(es) && |ip| == 4 && i < MAX_IP && s.ls[i].mac == holder != NOBODY
    ensures AfterAll(s, ip, es).ls[i].mac == holder || exists k: nat :: ClearedAt(s, ip, es, i, holder, k)
  {
    hide Expired, ExpiryAt;
    if es != [] {
      var init, last := es[..|es| - 1], es[|es| - 1];
      HeldUntilCleared(s, ip, init, i, holder);
      if AfterAll(s, ip, init).ls[i].mac == holder {
        var before := AfterAll(s, ip, init);
        if last.Discovered? {
          SearchKeeps(before.ls, last.mac, last.clock, 0, MAX_IP, i);
          if AfterAll(s, ip, es).ls[i].mac != holder {
            assert ClearedAt(s, ip, es, i, holder, |es| - 1);
          }
        }
      } else {
        var k: nat :| ClearedAt(s, ip, init, i, holder, k);
        assert es[..k] == init[..k];
        assert ClearedAt(s, ip, es, i, holder, k);
      }
    }
  }

  /** An address held by one client is acknowledged to another only after a DHCPDISCOVER has found the lease
      expired; and that happens only when more than 24 hours have passed since it was last granted. */
  lemma NeverTwoHolders(s: State, ip: seq<byte>, es: seq<Event>, from: nat, i: nat, holder: Mac, other: Mac,
                        requested: Option<seq<byte>>)
    requires AllWell(es) && Timed(from, es) && Consistent(s) && GrantedBy(s, from)
    requires |ip| == 4 && i < MAX_IP && s.ls[i].mac == holder != NOBODY && other != holder
    requires requested.Some? ==> |requested.value| == 4
    requires Granted(AfterAll(s, ip, es).ls, ip, other, requested) == Some(i)
    ensures exists k: nat :: ClearedAt(s, ip, es, i, holder, k)
    ensures forall k: nat :: ClearedAt(s, ip, es, i, holder, k) ==>
                               es[k].clock[i] > AfterAll(s, ip, es[..k]).granted[i] + LEASE_MS
  {
    hide Expired, ExpiryAt;
    HeldUntilCleared(s, ip, es, i, holder);
    forall k: nat | ClearedAt(s, ip, es, i, holder, k)
      ensures es[k].clock[i] > AfterAll(s, ip, es[..k]).granted[i] + LEASE_MS
    {
      TimedPrefix(from, es, k);
      GrantedInThePast(s, ip, es[..k], from);
      assert es[k].clock[0] <= es[k].clock[i];
      ExpiredIsOverdue(AfterAll(s, ip, es[..k]).granted[i], es[k].clock[i]);
    }
  }

  lemma ExpiredIsOverdue(granted: nat, now: nat)
    requires Expired(ExpiryAt(granted), now) && granted <= now
    ensures now > granted + LEASE_MS
  {
    if now <= granted + LEASE_MS + HALF {
      ExpiryBounds(granted, now - granted);
    }
  }

  //
  // What is offered is acknowledged
  //

  /** After a DISCOVER the entry that is offered is the client's or nobody's. */
  lemma {:induction false} OfferedIsFree(ls: seq<Lease>, mac: Mac, clock: seq<nat>, i: nat, yi: nat)
    requires IsTable(ls, clock) && i <= MAX_IP && yi <= MAX_IP && (yi < MAX_IP ==> ls[yi].mac == NOBODY)
    ensures
      var (now, offered) := Search(ls, mac, clock, i, yi);
      offered < MAX_IP ==> now[offered].mac == mac || now[offered].mac == NOBODY
    decreases MAX_IP - i
  {
    hide Expired;
    if i < MAX_IP && ls[i].mac != mac {
      if yi < MAX_IP {
        OfferedIsFree(ls, mac, clock, i + 1, yi);
      } else if Expired(ls[i].expiry, clock[i]) {
        OfferedIsFree(ls[i := ls[i].(mac := NOBODY)], mac, clock, i + 1, i);
      } else {
        OfferedIsFree(ls, mac, clock, i + 1, if ls[i].mac == NOBODY then i else yi);
      }
    }
  }

  /** The address of an entry. */
  function AddressOf(ip: seq<byte>, i: nat): (a: seq<byte>)
    requires |ip| == 4 && i < MAX_IP
    ensures |a| == 4
  {
    ip[..3] + [16 + i]
  }

  /** From this moment of the run on no other client is granted the entry. */
  ghost predicate KeptFor(s: State, ip: seq<byte>, es: seq<Event>, from: nat, i: nat, mac: Mac)
    requires Consistent(s) && AllWell(es) && |ip| == 4
  {
    forall k | from <= k < |es| && es[k].Requested? && es[k].mac != mac ::
      Granted(AfterAll(s, ip, es[..k]).ls, ip, es[k].mac, es[k].requested) != Some(i)
  }

  /** What a DISCOVER offers a client at some moment of a run is acknowledged to its REQUEST at the end of the run,
      whatever happens in between, unless another client is granted it there. */
  lemma OfferAcknowledged(s: State, ip: seq<byte>, es: seq<Event>, k: nat, i: nat)
    requires Consistent(s) && AllWell(es) && |ip| == 4 && k < |es| && es[k].Discovered? && i < MAX_IP
    requires Search(AfterAll(s, ip, es[..k]).ls, es[k].mac, es[k].clock, 0, MAX_IP).1 == i
    requires KeptFor(s, ip, es, k + 1, i, es[k].mac)
    ensures Granted(AfterAll(s, ip, es).ls, ip, es[k].mac, Some(AddressOf(ip, i))) == Some(i)
  {
    hide *;
    StaysFree(s, ip, es, k, i);
    FreeGranted(AfterAll(s, ip, es), ip, i, es[k].mac);
  }

  lemma FreeGranted(s: State, ip: seq<byte>, i: nat, mac: Mac)
    requires |s.ls| == MAX_IP && |ip| == 4 && i < MAX_IP && FreeFor(s, i, mac)
    ensures Granted(s.ls, ip, mac, Some(AddressOf(ip, i))) == Some(i)
  {
    var a := AddressOf(ip, i);
    assert a[3] == 16 + i && a[..3] == ip[..3];
  }

  lemma {:induction false} StaysFree(s: State, ip: seq<byte>, es: seq<Event>, k: nat, i: nat)
    requires Consistent(s) && AllWell(es) && |ip| == 4 && k < |es| && es[k].Discovered? && i < MAX_IP
    requires Search(AfterAll(s, ip, es[..k]).ls, es[k].mac, es[k].clock, 0, MAX_IP).1 == i
    requires KeptFor(s, ip, es, k + 1, i, es[k].mac)
    ensures FreeFor(AfterAll(s, ip, es), i, es[k].mac)
  {
    hide Expired, ExpiryAt, Search, Granted, After, Consistent, FreeFor;
    var n, mac := |es| - 1, es[k].mac;
    var init := es[..n];
    var before := AfterAll(s, ip, init);
    if k == n {
      OfferedFree(before, ip, mac, es[n].clock, i);
    } else {
      assert forall j | 0 <= j < n :: init[..j] == es[..j];
      StaysFree(s, ip, init, k, i);
      StepFree(before, ip, es[n], i, mac);
    }
  }

  /** The entry is the client's or nobody's. */
  predicate FreeFor(s: State, i: nat, mac: Mac) {
    i < |s.ls| && (s.ls[i].mac == mac || s.ls[i].mac == NOBODY)
  }

  lemma OfferedFree(s: State, ip: seq<byte>, mac: Mac, clock: seq<nat>, i: nat)
    requires Consistent(s) && |clock| == MAX_IP && |ip| == 4 && i < MAX_IP
    requires Search(s.ls, mac, clock, 0, MAX_IP).1 == i
    ensures FreeFor(After(s, ip, Discovered(mac, clock)), i, mac)
  {
    hide Search;
    OfferedIsFree(s.ls, mac, clock, 0, MAX_IP);
  }

  lemma StepFree(s: State, ip: seq<byte>, e: Event, i: nat, mac: Mac)
    requires Consistent(s) && Well(e) && |ip| == 4 && i < MAX_IP && FreeFor(s, i, mac)
    requires e.Requested? && e.mac != mac ==> Granted(s.ls, ip, e.mac, e.requested) != Some(i)
    ensures FreeFor(After(s, ip, e), i, mac)
  {
    hide Search, Expired, ExpiryAt;
    if e.Discovered? {
      SearchKeeps(s.ls, e.mac, e.clock, 0, MAX_IP, i);
    }
  }

  /** The same for the server itself: a client that sends DISCOVER and then REQUEST for what it was offered has the
      address, and its lease begins anew; so has a client that comes back. */
  method OfferThenRequest(server: Server, mac: Mac, clock: seq<nat>, now: nat) returns (offer: Option<nat>,
                          ack: Option<nat>)
    requires server.Valid() && |clock| == MAX_IP
    modifies server.lease
    ensures server.Valid() && ack == offer
    ensures offer.Some? ==>
              16 <= offer.value < 24 && server.lease[offer.value - 16] == Lease(mac, ExpiryAt(now))
    ensures mac != [0, 0, 0, 0, 0, 0] && (exists i :: 0 <= i < MAX_IP && old(server.lease[i].mac) == mac) ==>
              offer.Some? && old(server.lease[offer.value - 16].mac) == mac
  {
    hide Search, Expired, ExpiryAt, Granted;
    OfferedIsFree(server.lease[..], mac, clock, 0, MAX_IP);
    ghost var ls := server.lease[..];
    if mac != NOBODY && exists i :: 0 <= i < MAX_IP && ls[i].mac == mac {
      FirstHeld(ls, mac, clock);
    }
    offer := server.Discover(mac, clock);
    if offer == None {
      return offer, None;
    }
    ack := server.Request(mac, Some(server.ip[..3] + [offer.value]), now);
  }

  lemma FirstHeld(ls: seq<Lease>, mac: Mac, clock: seq<nat>)
    requires IsTable(ls, clock) && mac != NOBODY && exists i :: 0 <= i < MAX_IP && ls[i].mac == mac
    ensures var yi := Search(ls, mac, clock, 0, MAX_IP).1; yi < MAX_IP && ls[yi].mac == mac
  {
    hide Search;
    var k: nat := 0;
    while ls[k].mac != mac
      invariant k < MAX_IP && forall j | 0 <= j < k :: ls[j].mac != mac
      decreases MAX_IP - k
    {
      k := k + 1;
    }
    RecordedOffered(ls, mac, clock, 0, MAX_IP, k);
  }
}
