/** Pulses over Bluetooth: the sender's queue and packets (ZcPulseQueue.py, ZcBle.py) and the receiver (CBtGatt.cpp). */
module PulseStream {
  import opened Bytes
  import opened Options
  import opened Sequences

  const BATCH := 14
  const HEADER := 4
  const MESSAGE_SIZE := 16
  const RESET: byte := 1
  const PULSE: byte := 2
  const CHANNELS := 4
  const QUEUE_LENGTH := 50
  const SEND_WITHIN_US := 30_000
  const REPORT_US := 1_000_000

  datatype Message = Message(cmd: byte, pos: byte, neg: byte, mask: byte, time: nat, amplitude: nat)

  predicate Packable(m: Message) {
    m.time < 0x1_0000_0000_0000_0000 && m.amplitude < 0x1_0000
  }

  predicate AllPackable(ms: seq<Message>) {
    forall i | 0 <= i < |ms| :: Packable(ms[i])
  }

  /** The mask of a channel from 1 to 4: both polarities of that channel. */
  function MaskOf(channel: int): byte {
    if channel == 1 then 0x03 else if channel == 2 then 0x0C else if channel == 3 then 0x30
    else if channel == 4 then 0xC0 else 0
  }

  /** pulse_message_for_channel: the two bits of a channel. */
  function ForChannel(channel: nat, mask: byte): nat
    requires channel < CHANNELS
  {
    mask / (if channel == 0 then 1 else if channel == 1 then 4 else if channel == 2 then 16 else 64) % 4
  }

  /** The bits of a byte, from the lowest. */
  function Bits(b: byte): (bits: seq<nat>)
    ensures |bits| == 8 && forall k | 0 <= k < 8 :: bits[k] <= 1
    ensures b == bits[0] + 2 * bits[1] + 4 * bits[2] + 8 * bits[3] + 16 * bits[4] + 32 * bits[5] + 64 * bits[6]
                 + 128 * bits[7]
  {
    var b1 := b / 2;
    var b2 := b1 / 2;
    var b3 := b2 / 2;
    var b4 := b3 / 2;
    var b5 := b4 / 2;
    var b6 := b5 / 2;
    [b % 2, b1 % 2, b2 % 2, b3 % 2, b4 % 2, b5 % 2, b6 % 2, b6 / 2]
  }

  lemma BitsForChannel(c: nat, mask: byte)
    requires c < CHANNELS
    ensures ForChannel(c, mask) == Bits(mask)[2 * c] + 2 * Bits(mask)[2 * c + 1]
  {
    hide Bits;
    var b := Bits(mask);
    var low, mid := b[0] + 2 * b[1], b[2] + 2 * b[3];
    var upper, top := b[4] + 2 * b[5], b[6] + 2 * b[7];
    assert mask == low + 4 * mid + 16 * upper + 64 * top;
    if c == 0 {
      DividedBy(1, 0, low, mid + 4 * upper + 16 * top, mask);
    } else if c == 1 {
      DividedBy(4, low, mid, upper + 4 * top, mask);
    } else if c == 2 {
      DividedBy(16, low + 4 * mid, upper, top, mask);
    } else {
      DividedBy(64, low + 4 * mid + 16 * upper, top, 0, mask);
    }
  }

  lemma DividedBy(d: nat, below: nat, x: nat, above: nat, n: nat)
    requires d in {1, 4, 16, 64} && below < d && x < 4 && n == below + d * (x + 4 * above)
    ensures n / d % 4 == x
  {
    assert n / d == x + 4 * above;
  }

  /** A pulse for one channel selects both polarities of that channel, and no other channel. */
  lemma OnlyItsChannel(channel: int, c: nat)
    requires 1 <= channel <= CHANNELS && c < CHANNELS
    ensures ForChannel(c, MaskOf(channel)) == if c == channel - 1 then 3 else 0
  {
  }

  /** pack, and reading the same bytes as the receiver's packed structure. */
  function Pack(m: Message): (s: seq<byte>)
    requires Packable(m)
    ensures |s| == MESSAGE_SIZE
  {
    [m.cmd, m.pos, m.neg, m.mask] + Le(m.time, 8) + Le(m.amplitude, 2) + [0, 0]
  }

  function Unpack(s: seq<byte>): Message
    requires |s| == MESSAGE_SIZE
  {
    Message(s[0], s[1], s[2], s[3], FromLe(s[4..12]), FromLe(s[12..14]))
  }

  lemma UnpackPack(m: Message)
    requires Packable(m)
    ensures Unpack(Pack(m)) == m
  {
    hide Le, FromLe;
    Ranges();
    FromLeOfLe(m.time, 8);
    FromLeOfLe(m.amplitude, 2);
    assert Pack(m)[4..12] == Le(m.time, 8) && Pack(m)[12..14] == Le(m.amplitude, 2);
  }

  function PackAll(ms: seq<Message>): (s: seq<byte>)
    requires AllPackable(ms)
    ensures |s| == MESSAGE_SIZE * |ms|
  {
    if ms == [] then [] else PackAll(ms[..|ms| - 1]) + Pack(ms[|ms| - 1])
  }

  /** The k-th packet after the start. */
  function Packet(ms: seq<Message>, k: nat): (s: seq<byte>)
    requires AllPackable(ms) && |ms| < 256
    ensures |s| == HEADER + MESSAGE_SIZE * |ms|
  {
    [|ms|, k % 256, 0, 0] + PackAll(ms)
  }

  function MessageAt(packet: seq<byte>, i: nat): Message
    requires HEADER + MESSAGE_SIZE * (i + 1) <= |packet|
  {
    Unpack(packet[HEADER + MESSAGE_SIZE * i..HEADER + MESSAGE_SIZE * (i + 1)])
  }

  lemma {:induction false} PackedAt(ms: seq<Message>, i: nat)
    requires AllPackable(ms) && i < |ms|
    ensures PackAll(ms)[MESSAGE_SIZE * i..MESSAGE_SIZE * (i + 1)] == Pack(ms[i])
  {
    hide Pack;
    var init := ms[..|ms| - 1];
    if i < |ms| - 1 {
      PackedAt(init, i);
      assert PackAll(ms)[MESSAGE_SIZE * i..MESSAGE_SIZE * (i + 1)] ==
             PackAll(init)[MESSAGE_SIZE * i..MESSAGE_SIZE * (i + 1)];
    }
  }

  /** The receiver reads the messages of a packet as they were queued. */
  lemma ReadAsQueued(ms: seq<Message>, k: nat, i: nat)
    requires AllPackable(ms) && |ms| < 256 && i < |ms|
    ensures MessageAt(Packet(ms, k), i) == ms[i]
  {
    hide Pack, PackAll;
    PackedAt(ms, i);
    UnpackPack(ms[i]);
    var from := MESSAGE_SIZE * i;
    assert Packet(ms, k)[HEADER + from..HEADER + MESSAGE_SIZE * (i + 1)] == PackAll(ms)[from..MESSAGE_SIZE * (i + 1)];
  }

  lemma Slice(p: seq<byte>, at: nat, from: nat, to: nat)
    requires at + 16 <= |p| && from <= to <= 16
    ensures p[at..at + 16][from..to] == p[at + from..at + to]
  {
    var a, b := p[at..at + 16][from..to], p[at + from..at + to];
    assert |a| == |b| && forall k | 0 <= k < |a| :: a[k] == b[k];
  }

  /** Where the bytes of a message lie in a packet. */
  lemma PacketBytes(ms: seq<Message>, k: nat, i: nat)
    requires AllPackable(ms) && |ms| < 256 && i < |ms|
    ensures
      var p, at := Packet(ms, k), 4 + 16 * i;
      && p[0] == |ms| && p[1] == k % 256 && |p| == 4 + 16 * |ms|
      && p[at] == ms[i].cmd && p[at + 1] == ms[i].pos && p[at + 2] == ms[i].neg && p[at + 3] == ms[i].mask
      && p[at + 4..at + 12] == Le(ms[i].time, 8) && p[at + 12..at + 14] == Le(ms[i].amplitude, 2)
  {
    hide PackAll, Le;
    Ranges();
    PackedAt(ms, i);
    var p, at := Packet(ms, k), 4 + 16 * i;
    var message := p[at..at + 16];
    assert message == PackAll(ms)[16 * i..16 * (i + 1)] == Pack(ms[i]);
    Slice(p, at, 4, 12);
    Slice(p, at, 12, 14);
    assert p[at] == message[0] && p[at + 1] == message[1] && p[at + 2] == message[2] && p[at + 3] == message[3];
  }

  //
  // The sender
  //

  /** Packets numbered from 1, each with one batch. */
  ghost predicate AreSent(sent: seq<seq<byte>>, batches: seq<seq<Message>>) {
    |sent| == |batches| &&
    forall i | 0 <= i < |batches| ::
      AllPackable(batches[i]) && |batches[i]| <= BATCH && sent[i] == Packet(batches[i], i + 1)
  }

  lemma SentLength(sent: seq<seq<byte>>, batches: seq<seq<Message>>)
    requires AreSent(sent, batches)
    ensures |sent| == |batches|
  {
  }

  lemma OneMoreSent(sent: seq<seq<byte>>, batches: seq<seq<Message>>, batch: seq<Message>)
    requires AreSent(sent, batches) && AllPackable(batch) && |batch| <= BATCH
    ensures AreSent(sent + [Packet(batch, |sent| + 1)], batches + [batch])
    ensures Flat(batches + [batch]) == Flat(batches) + batch
  {
    hide Packet;
    FlatNext(batches, batch);
  }

  class PulseQueue {
    var firstPulseInQueue: nat
    var pulseCountInQueue: nat
    var packetCount: nat
    var pulses: seq<Message>
    ghost var added: seq<Message>
    ghost var batches: seq<seq<Message>>
    var sent: seq<seq<byte>>

    /** Every pulse added was sent in order, in packets numbered from 1, or waits in order. */
    ghost predicate Valid()
      reads this
    {
      && pulseCountInQueue == |pulses| < BATCH && packetCount == 1 + |sent| && AllPackable(added)
      && added == Flat(batches) + pulses && AreSent(sent, batches)
      && (pulses != [] ==> firstPulseInQueue == pulses[0].time)
    }

    constructor ()
      ensures Valid() && added == [] && sent == [] && batches == [] && pulses == []
    {
      firstPulseInQueue, pulseCountInQueue, packetCount, pulses := 0, 0, 1, [];
      added, batches, sent := [], [], [];
    }

    /** send_pulses. */
    method SendPulses() returns (packet: seq<byte>)
      requires pulseCountInQueue == |pulses| <= BATCH && packetCount == 1 + |sent| && AllPackable(added)
      requires added == Flat(batches) + pulses && AreSent(sent, batches)
      modifies this
      ensures Valid() && pulses == [] && added == old(added) && batches == old(batches) + [old(pulses)]
      ensures AllPackable(old(pulses)) && packet == Packet(old(pulses), old(packetCount))
      ensures sent == old(sent) + [packet]
      ensures |packet| == HEADER + MESSAGE_SIZE * packet[0] <= 228
    {
      hide Pack, PackAll, AreSent, Flat;
      SentLength(sent, batches);
      assert AllPackable(pulses) by {
        assert forall i | 0 <= i < |pulses| :: pulses[i] == added[|Flat(batches)| + i];
      }
      packet := [pulseCountInQueue, packetCount % 256, 0, 0];
      packetCount := packetCount + 1;
      pulseCountInQueue := 0;
      var rest := PackQueue();
      packet := packet + rest;
      OneMoreSent(sent, batches, old(pulses));
      sent := sent + [packet];
      batches := batches + [old(pulses)];
    }

    /** The loop that empties the queue into the packet. */
    method PackQueue() returns (packed: seq<byte>)
      requires AllPackable(pulses)
      modifies this`pulses
      ensures pulses == [] && packed == PackAll(old(pulses))
    {
      hide Pack;
      ghost var all := pulses;
      packed := [];
      while pulses != []
        invariant |pulses| <= |all| && all[|all| - |pulses|..] == pulses && packed == PackAll(all[..|all| - |pulses|])
        decreases |pulses|
      {
        ghost var k := |all| - |pulses|;
        assert pulses[0] == all[k] && all[..k + 1][..k] == all[..k];
        packed := packed + Pack(pulses[0]);
        pulses := pulses[1..];
      }
      assert all[..|all|] == all;
    }

    /** add_to_outbound_queue: a full queue is sent at once. */
    method AddToOutboundQueue(pulse: Message)
      requires Valid() && Packable(pulse)
      modifies this
      ensures Valid() && added == old(added) + [pulse]
      ensures if |old(pulses)| + 1 == 14 then pulses == [] && batches == old(batches) + [old(pulses) + [pulse]]
              else pulses == old(pulses) + [pulse] && batches == old(batches)
    {
      if pulseCountInQueue == 0 {
        firstPulseInQueue := pulse.time;
      }
      pulseCountInQueue := pulseCountInQueue + 1;
      pulses := pulses + [pulse];
      added := added + [pulse];
      if |pulses| == BATCH {
        var packet := SendPulses();
      }
    }

    /** send_if_old: pulses that are due soon do not wait for the queue to fill. */
    method SendIfOld(patternTime: int)
      requires Valid()
      modifies this
      ensures Valid() && added == old(added)
      ensures if old(pulses) != [] && old(pulses[0].time) - patternTime < 30_000 then
                pulses == [] && batches == old(batches) + [old(pulses)]
              else pulses == old(pulses) && batches == old(batches)
    {
      if pulseCountInQueue > 0 {
        if firstPulseInQueue - patternTime < SEND_WITHIN_US {
          var packet := SendPulses();
        }
      }
    }
  }

  //
  // The receiver
  //

  datatype PulseMsg = PulseMsg(time: nat, pos: byte, neg: byte, level: nat)

  type Queues = q: seq<seq<PulseMsg>> | |q| == CHANNELS witness [[], [], [], []]

  /** When a pulse is due, in the 64 bits of the receiver's clock. */
  function Due(m: Message, start: nat): nat {
    (m.time + start) % 0x1_0000_0000_0000_0000
  }

  /** What a pulse adds to the queue of a channel: nothing if it is late, too strong, for other channels or finds
      the queue full. */
  function Added(m: Message, c: nat, length: nat, start: nat, now: nat): seq<PulseMsg>
    requires c < CHANNELS
  {
    var opt := ForChannel(c, m.mask);
    if m.cmd != PULSE || Due(m, start) < now || m.amplitude > 1000 || opt == 0 || length >= QUEUE_LENGTH then []
    else [PulseMsg(Due(m, start), if opt % 2 == 1 then m.pos else 0, if opt / 2 == 1 then m.neg else 0, m.amplitude)]
  }

  function Enqueued(q: Queues, m: Message, start: nat, now: nat): Queues {
    seq(CHANNELS, c requires 0 <= c < CHANNELS => q[c] + Added(m, c, |q[c]|, start, now))
  }

  lemma EnqueuedNothing(q: Queues, m: Message, start: nat, now: nat)
    ensures (forall c | 0 <= c < CHANNELS :: Added(m, c, |q[c]|, start, now) == []) ==> Enqueued(q, m, start, now) == q
    ensures m.cmd != PULSE ==> Enqueued(q, m, start, now) == q
  {
    hide ForChannel, Due;
    if forall c | 0 <= c < CHANNELS :: Added(m, c, |q[c]|, start, now) == [] {
      assert forall c | 0 <= c < CHANNELS :: Enqueued(q, m, start, now)[c] == q[c];
    }
  }

  lemma HandledNothing(start: nat, q: Queues)
    ensures Handled(start, q, [], []) == (start, q)
  {
  }

  /** The start time and the queues after messages, each handled at its own time; a start message makes its time the
      start. */
  function Handled(start: nat, q: Queues, ms: seq<Message>, times: seq<nat>): (nat, Queues)
    requires |times| == |ms|
    decreases |ms|
  {
    if ms == [] then (start, q)
    else
      var n := |ms| - 1;
      var (s, r) := Handled(start, q, ms[..n], times[..n]);
      (if ms[n].cmd == RESET then times[n] else s, Enqueued(r, ms[n], s, times[n]))
  }

  lemma HandledNext(start: nat, q: Queues, ms: seq<Message>, times: seq<nat>, m: Message, now: nat)
    requires |times| == |ms|
    ensures
      var (s, r) := Handled(start, q, ms, times);
      Handled(start, q, ms + [m], times + [now]) == (if m.cmd == RESET then now else s, Enqueued(r, m, s, now))
  {
    hide Enqueued;
    assert (ms + [m])[..|ms|] == ms && (times + [now])[..|ms|] == times;
  }

  lemma {:induction false} HandledAppend(start: nat, q: Queues, a: seq<Message>, ta: seq<nat>, b: seq<Message>,
                                         tb: seq<nat>)
    requires |ta| == |a| && |tb| == |b|
    ensures
      var (s, r) := Handled(start, q, a, ta);
      Handled(start, q, a + b, ta + tb) == Handled(s, r, b, tb)
    decreases |b|
  {
    hide Enqueued;
    if b == [] {
      assert a + b == a && ta + tb == ta;
    } else {
      var n := |b| - 1;
      HandledAppend(start, q, a, ta, b[..n], tb[..n]);
      assert (a + b)[..|a| + n] == a + b[..n] && (ta + tb)[..|a| + n] == ta + tb[..n];
    }
  }

  /** The start time is when the last start message was handled. */
  lemma {:induction false} StartIs(start: nat, q: Queues, ms: seq<Message>, times: seq<nat>, i: nat)
    requires |times| == |ms| && i < |ms| && ms[i].cmd == 1 && forall j | i < j < |ms| :: ms[j].cmd != 1
    ensures Handled(start, q, ms, times).0 == times[i]
    decreases |ms|
  {
    hide Enqueued;
    var n := |ms| - 1;
    if i < n {
      StartIs(start, q, ms[..n], times[..n], i);
    }
  }

  lemma {:induction false} StartKept(start: nat, q: Queues, ms: seq<Message>, times: seq<nat>)
    requires |times| == |ms| && forall i | 0 <= i < |ms| :: ms[i].cmd != 1
    ensures Handled(start, q, ms, times).0 == start
    decreases |ms|
  {
    hide Enqueued;
    if ms != [] {
      StartKept(start, q, ms[..|ms| - 1], times[..|ms| - 1]);
    }
  }

  /** The start time when message i is handled. */
  function StartAt(start: nat, q: Queues, ms: seq<Message>, times: seq<nat>, i: nat): nat
    requires |times| == |ms| && i <= |ms|
  {
    Handled(start, q, ms[..i], times[..i]).0
  }

  /** Which messages are queued for a channel. */
  function Takers(start: nat, q: Queues, ms: seq<Message>, times: seq<nat>, c: nat): seq<nat>
    requires |times| == |ms| && c < CHANNELS
    decreases |ms|
  {
    if ms == [] then []
    else
      var n := |ms| - 1;
      var (s, r) := Handled(start, q, ms[..n], times[..n]);
      Takers(start, q, ms[..n], times[..n], c) + if Added(ms[n], c, |r[c]|, s, times[n]) == [] then [] else [n as nat]
  }

  /** Whatever arrives, on time or not: to the queue of a channel are added, in order, the messages that are pulses,
      not late, not too strong and for this channel, and no others, until it is full; and from then on none. Each
      carries the width of a polarity exactly if the mask selects it. */
  lemma QueuedIs(start: nat, q: Queues, ms: seq<Message>, times: seq<nat>, c: nat)
    requires |times| == |ms| && c < CHANNELS && |q[c]| <= 50
    ensures
      var r, from := Handled(start, q, ms, times).1[c], Takers(start, q, ms, times, c);
      && |r| == |q[c]| + |from| <= 50 && r[..|q[c]|] == q[c]
      && (forall k | 0 <= k < |from| :: from[k] < |ms|) && (forall j, k | 0 <= j < k < |from| :: from[j] < from[k])
      && (forall k | 0 <= k < |from| ::
            var m, s, e := ms[from[k]], StartAt(start, q, ms, times, from[k]), r[|q[c]| + k];
            && m.cmd == 2 && e.time == (m.time + s) % 0x1_0000_0000_0000_0000 >= times[from[k]]
            && e.level == m.amplitude <= 1000 && (Bits(m.mask)[2 * c] == 1 || Bits(m.mask)[2 * c + 1] == 1)
            && e.pos == (if Bits(m.mask)[2 * c] == 1 then m.pos else 0)
            && e.neg == (if Bits(m.mask)[2 * c + 1] == 1 then m.neg else 0))
      && (forall i | 0 <= i < |ms| && i !in from ::
            var m, s := ms[i], StartAt(start, q, ms, times, i);
            || m.cmd != 2 || (m.time + s) % 0x1_0000_0000_0000_0000 < times[i] || m.amplitude > 1000
            || Bits(m.mask)[2 * c] == Bits(m.mask)[2 * c + 1] == 0
            || (|r| == 50 && forall k | k in from :: k < i))
  {
    hide Handled, Takers, Eligible, EntryOf, Bits, StartAt;
    Selected(start, q, ms, times, c);
    var r, from := Handled(start, q, ms, times).1[c], Takers(start, q, ms, times, c);
    forall i | 0 <= i < |ms|
      ensures Eligible(ms[i], c, StartAt(start, q, ms, times, i), times[i]) <==>
              && ms[i].cmd == 2 && ms[i].amplitude <= 1000
              && (ms[i].time + StartAt(start, q, ms, times, i)) % 0x1_0000_0000_0000_0000 >= times[i]
              && (Bits(ms[i].mask)[2 * c] == 1 || Bits(ms[i].mask)[2 * c + 1] == 1)
    {
      EligibleIs(ms[i], c, StartAt(start, q, ms, times, i), times[i]);
    }
    forall k | 0 <= k < |from|
      ensures
        var m, s, e := ms[from[k]], StartAt(start, q, ms, times, from[k]), r[|q[c]| + k];
        && e.time == (m.time + s) % 0x1_0000_0000_0000_0000 && e.level == m.amplitude
        && e.pos == (if Bits(m.mask)[2 * c] == 1 then m.pos else 0)
        && e.neg == (if Bits(m.mask)[2 * c + 1] == 1 then m.neg else 0)
    {
      EntryIs(ms[from[k]], c, StartAt(start, q, ms, times, from[k]));
    }
  }

  /** The same without start messages, for one entry of the queue and one message. */
  lemma EntryQueued(start: nat, q: Queues, ms: seq<Message>, times: seq<nat>, c: nat, e: PulseMsg)
    requires |times| == |ms| && c < CHANNELS && |q[c]| <= 50 && forall i | 0 <= i < |ms| :: ms[i].cmd == 2
    requires q[c] <= Handled(start, q, ms, times).1[c] && e in Handled(start, q, ms, times).1[c][|q[c]|..]
    ensures
      exists i | 0 <= i < |ms| ::
        var m := ms[i];
        && e.time == (m.time + start) % 0x1_0000_0000_0000_0000 >= times[i] && e.level == m.amplitude <= 1000
        && (Bits(m.mask)[2 * c] == 1 || Bits(m.mask)[2 * c + 1] == 1)
        && e.pos == (if Bits(m.mask)[2 * c] == 1 then m.pos else 0)
        && e.neg == (if Bits(m.mask)[2 * c + 1] == 1 then m.neg else 0)
  {
    hide Handled, Takers, Bits, StartAt;
    QueuedIs(start, q, ms, times, c);
    var r, from := Handled(start, q, ms, times).1[c], Takers(start, q, ms, times, c);
    var k :| 0 <= k < |from| && e == r[|q[c]|..][k];
    SameStart(start, q, ms, times, from[k]);
    assert e == r[|q[c]| + k] && 0 <= from[k] < |ms|;
  }

  lemma MessageQueued(start: nat, q: Queues, ms: seq<Message>, times: seq<nat>, c: nat, i: nat)
    requires |times| == |ms| && c < CHANNELS && |q[c]| <= 50 && i < |ms|
    requires forall i | 0 <= i < |ms| :: ms[i].cmd == 2
    requires (ms[i].time + start) % 0x1_0000_0000_0000_0000 >= times[i] && ms[i].amplitude <= 1000
    requires Bits(ms[i].mask)[2 * c] == 1 || Bits(ms[i].mask)[2 * c + 1] == 1
    ensures
      var m, r := ms[i], Handled(start, q, ms, times).1[c];
      || |r| == 50
      || PulseMsg((m.time + start) % 0x1_0000_0000_0000_0000, if Bits(m.mask)[2 * c] == 1 then m.pos else 0,
                  if Bits(m.mask)[2 * c + 1] == 1 then m.neg else 0, m.amplitude) in r
  {
    hide Handled, Takers, Bits, StartAt;
    QueuedIs(start, q, ms, times, c);
    SameStart(start, q, ms, times, i);
    var r, from := Handled(start, q, ms, times).1[c], Takers(start, q, ms, times, c);
    if i in from {
      var k :| 0 <= k < |from| && from[k] == i;
      assert r[|q[c]| + k] in r;
    }
  }

  lemma SameStart(start: nat, q: Queues, ms: seq<Message>, times: seq<nat>, i: nat)
    requires |times| == |ms| && i <= |ms| && forall i | 0 <= i < |ms| :: ms[i].cmd == 2
    ensures StartAt(start, q, ms, times, i) == start
  {
    hide Handled;
    StartKept(start, q, ms[..i], times[..i]);
  }

  lemma QueueGrows(start: nat, q: Queues, ms: seq<Message>, times: seq<nat>, c: nat)
    requires |times| == |ms| && c < CHANNELS && |q[c]| <= 50
    ensures var r := Handled(start, q, ms, times).1[c]; q[c] <= r && |r| <= 50
  {
    hide Handled, Takers, Bits, StartAt;
    QueuedIs(start, q, ms, times, c);
  }

  predicate Eligible(m: Message, c: nat, start: nat, now: nat)
    requires c < CHANNELS
  {
    m.cmd == PULSE && Due(m, start) >= now && m.amplitude <= 1000 && ForChannel(c, m.mask) != 0
  }

  function EntryOf(m: Message, c: nat, start: nat): PulseMsg
    requires c < CHANNELS
  {
    var opt := ForChannel(c, m.mask);
    PulseMsg(Due(m, start), if opt % 2 == 1 then m.pos else 0, if opt / 2 == 1 then m.neg else 0, m.amplitude)
  }

  lemma EligibleIs(m: Message, c: nat, start: nat, now: nat)
    requires c < CHANNELS
    ensures Eligible(m, c, start, now) <==>
            && m.cmd == 2 && m.amplitude <= 1000 && (m.time + start) % 0x1_0000_0000_0000_0000 >= now
            && (Bits(m.mask)[2 * c] == 1 || Bits(m.mask)[2 * c + 1] == 1)
  {
    hide Bits, ForChannel;
    BitsForChannel(c, m.mask);
  }

  lemma EntryIs(m: Message, c: nat, start: nat)
    requires c < CHANNELS
    ensures
      var e := EntryOf(m, c, start);
      && e.time == (m.time + start) % 0x1_0000_0000_0000_0000 && e.level == m.amplitude
      && e.pos == (if Bits(m.mask)[2 * c] == 1 then m.pos else 0)
      && e.neg == (if Bits(m.mask)[2 * c + 1] == 1 then m.neg else 0)
  {
    hide Bits, ForChannel;
    BitsForChannel(c, m.mask);
  }

  /** What a pulse adds to the queue of a channel, bit by bit. */
  lemma AddedBits(m: Message, c: nat, length: nat, start: nat, now: nat)
    requires c < CHANNELS && m.cmd == PULSE
    ensures
      var at, pos, neg := (m.time + start) % 0x1_0000_0000_0000_0000, Bits(m.mask)[2 * c], Bits(m.mask)[2 * c + 1];
      Added(m, c, length, start, now) ==
      if at < now || m.amplitude > 1000 || pos == neg == 0 || length >= 50 then []
      else [PulseMsg(at, if pos == 1 then m.pos else 0, if neg == 1 then m.neg else 0, m.amplitude)]
  {
    hide Bits, ForChannel;
    BitsForChannel(c, m.mask);
  }

  lemma AddedIs(m: Message, c: nat, length: nat, start: nat, now: nat)
    requires c < CHANNELS
    ensures Added(m, c, length, start, now) ==
            if Eligible(m, c, start, now) && length < 50 then [EntryOf(m, c, start)] else []
  {
  }

  /** The entry that message i has a claim to. */
  function EntryAt(start: nat, q: Queues, ms: seq<Message>, times: seq<nat>, c: nat, i: nat): Option<PulseMsg>
    requires |times| == |ms| && c < CHANNELS && i < |ms|
  {
    var s := StartAt(start, q, ms, times, i);
    if Eligible(ms[i], c, s, times[i]) then Some(EntryOf(ms[i], c, s)) else None
  }

  function Entries(start: nat, q: Queues, ms: seq<Message>, times: seq<nat>, c: nat): seq<Option<PulseMsg>>
    requires |times| == |ms| && c < CHANNELS
  {
    seq(|ms|, i requires 0 <= i < |ms| => EntryAt(start, q, ms, times, c, i))
  }

  /** The entries in r behind those of q are the first ones, as many as there is room for, from these places. */
  ghost predicate IsSelection(q: seq<PulseMsg>, r: seq<PulseMsg>, from: seq<nat>, entries: seq<Option<PulseMsg>>) {
    && |r| == |q| + |from| <= 50 && r[..|q|] == q
    && (forall j, k | 0 <= j < k < |from| :: from[j] < from[k])
    && (forall k | 0 <= k < |from| :: from[k] < |entries| && entries[from[k]] == Some(r[|q| + k]))
    && forall i | 0 <= i < |entries| && entries[i].Some? && i !in from :: |r| == 50 && forall k | k in from :: k < i
  }

  lemma SelectionNext(q: seq<PulseMsg>, r: seq<PulseMsg>, from: seq<nat>, entries: seq<Option<PulseMsg>>,
                      e: Option<PulseMsg>)
    requires IsSelection(q, r, from, entries)
    ensures if e.None? || |r| == 50 then IsSelection(q, r, from, entries + [e])
            else IsSelection(q, r + [e.value], from + [|entries|], entries + [e])
  {
    assert forall k | 0 <= k < |from| :: from[k] in from;
    if e.Some? && |r| < 50 {
      var more := from + [|entries|];
      forall i | 0 <= i < |entries| + 1 && (entries + [e])[i].Some?
        ensures i in more
      {
        assert i == |entries| ==> more[|from|] == i;
        assert i < |entries| ==> i in from;
      }
    }
  }

  lemma {:induction false} Selected(start: nat, q: Queues, ms: seq<Message>, times: seq<nat>, c: nat)
    requires |times| == |ms| && c < CHANNELS && |q[c]| <= 50
    ensures IsSelection(q[c], Handled(start, q, ms, times).1[c], Takers(start, q, ms, times, c),
                        Entries(start, q, ms, times, c))
    decreases |ms|
  {
    hide Eligible, EntryOf, Added, IsSelection;
    if ms == [] {
      NothingSelected(q[c]);
    } else {
      var n := |ms| - 1;
      var init, before := Entries(start, q, ms[..n], times[..n], c), Handled(start, q, ms[..n], times[..n]);
      Selected(start, q, ms[..n], times[..n], c);
      AddedIs(ms[n], c, |before.1[c]|, before.0, times[n]);
      forall i: nat | i < n
        ensures StartAt(start, q, ms[..n], times[..n], i) == StartAt(start, q, ms, times, i)
      {
        assert ms[..n][..i] == ms[..i] && times[..n][..i] == times[..i];
      }
      var e := EntryAt(start, q, ms, times, c, n);
      assert Entries(start, q, ms, times, c) == init + [e];
      SelectionNext(q[c], before.1[c], Takers(start, q, ms[..n], times[..n], c), init, e);
      SelectionFits(q[c], before.1[c], Takers(start, q, ms[..n], times[..n], c), init);
      assert before.1[c] + [] == before.1[c];
      assert Takers(start, q, ms[..n], times[..n], c) + [] == Takers(start, q, ms[..n], times[..n], c);
    }
  }

  lemma NothingSelected(q: seq<PulseMsg>)
    requires |q| <= 50
    ensures IsSelection(q, q, [], [])
  {
  }

  lemma SelectionFits(q: seq<PulseMsg>, r: seq<PulseMsg>, from: seq<nat>, entries: seq<Option<PulseMsg>>)
    requires IsSelection(q, r, from, entries)
    ensures |r| <= 50
  {
  }

  /** Those of the sender's pulses that are for a channel. */
  function ForQueue(pulses: seq<(int, Message)>, c: nat, start: nat): seq<PulseMsg>
    decreases |pulses|
  {
    if pulses == [] then []
    else
      var (channel, m) := pulses[|pulses| - 1];
      ForQueue(pulses[..|pulses| - 1], c, start) +
      if channel == c + 1 then [PulseMsg(Due(m, start), m.pos, m.neg, m.amplitude)] else []
  }

  function Messages(pulses: seq<(int, Message)>): seq<Message> {
    seq(|pulses|, i requires 0 <= i < |pulses| => pulses[i].1)
  }

  /** A pulse for one channel, in time and not too strong. */
  predicate OnTime(pulse: (int, Message), start: nat, now: nat) {
    && 1 <= pulse.0 <= CHANNELS && pulse.1.cmd == PULSE && pulse.1.mask == MaskOf(pulse.0)
    && Due(pulse.1, start) >= now && pulse.1.amplitude <= 1000
  }

  /** Pulses that arrive on time and find room are queued in order, each for its own channel only, and as sent. */
  lemma {:induction false} QueuedForTheirChannels(start: nat, q: Queues, pulses: seq<(int, Message)>, times: seq<nat>)
    requires |times| == |pulses| && forall i | 0 <= i < |pulses| :: OnTime(pulses[i], start, times[i])
    requires forall c | 0 <= c < CHANNELS :: |q[c]| + |ForQueue(pulses, c, start)| <= QUEUE_LENGTH
    ensures Handled(start, q, Messages(pulses), times).0 == start
    ensures forall c | 0 <= c < CHANNELS ::
              Handled(start, q, Messages(pulses), times).1[c] == q[c] + ForQueue(pulses, c, start)
    decreases |pulses|
  {
    if pulses != [] {
      var n := |pulses| - 1;
      QueuedForTheirChannels(start, q, pulses[..n], times[..n]);
      assert Messages(pulses)[..n] == Messages(pulses[..n]);
      forall c: nat | c < CHANNELS
        ensures Handled(start, q, Messages(pulses), times).1[c] == q[c] + ForQueue(pulses, c, start)
      {
        OnlyItsChannel(pulses[n].0, c);
      }
    }
  }

  /** The size of a packet fits its count. */
  predicate Fits(packet: seq<byte>) {
    |packet| >= HEADER && |packet| == HEADER + MESSAGE_SIZE * packet[0]
  }

  /** All messages of packets that were sent as batches. */
  function MessagesOf(packet: seq<byte>): seq<Message>
    requires Fits(packet)
  {
    seq(packet[0], i requires 0 <= i < packet[0] => MessageAt(packet, i))
  }

  lemma BatchReceived(ms: seq<Message>, k: nat)
    requires AllPackable(ms) && |ms| < 256
    ensures MessagesOf(Packet(ms, k)) == ms
  {
    hide Packet, MessageAt;
    PacketShape(ms, k);
    forall i | 0 <= i < |ms|
      ensures MessageAt(Packet(ms, k), i) == ms[i]
    {
      ReadAsQueued(ms, k, i);
    }
  }

  lemma PacketShape(ms: seq<Message>, k: nat)
    requires AllPackable(ms) && |ms| < 256
    ensures |Packet(ms, k)| == HEADER + MESSAGE_SIZE * |ms| && Packet(ms, k)[0] == |ms| && Packet(ms, k)[1] == k % 256
  {
  }

  /** What time_us_64 says while a packet is handled: when the packet is counted, after a report if there is one, and
      for each message. */
  datatype Readings = Readings(at: nat, stamp: nat, times: seq<nat>)

  function Until(from: nat, r: Readings): nat {
    if r.times == [] then r.stamp else r.times[|r.times| - 1]
  }

  /** Time does not run backwards. */
  predicate Timely(from: nat, r: Readings) {
    && from <= r.at <= r.stamp && (forall i | 0 <= i < |r.times| :: r.stamp <= r.times[i])
    && forall i, j | 0 <= i < j < |r.times| :: r.times[i] <= r.times[j]
  }

  lemma TimelyEnds(from: nat, r: Readings)
    requires Timely(from, r)
    ensures from <= r.at <= r.stamp <= Until(from, r)
  {
  }

  /** Whether the counters are reported, and begin anew, with a packet counted now. */
  predicate Reports(lastDebugMsg: nat, now: nat) {
    now > lastDebugMsg + REPORT_US
  }

  predicate Restarts(ms: seq<Message>) {
    exists m :: m in ms && m.cmd == RESET
  }

  lemma RestartsNothing()
    ensures !Restarts([])
  {
  }

  lemma RestartsNext(ms: seq<Message>, m: Message)
    ensures Restarts(ms + [m]) <==> Restarts(ms) || m.cmd == RESET
  {
    assert m in ms + [m];
    assert forall k | k in ms :: k in ms + [m];
  }

  class Receiver {
    var startTime: nat
    var lastPacketCount: byte
    var missingPackets: nat
    var recvPackets: nat
    var lastDebugMsg: nat
    var queues: Queues
    ghost var seen: seq<Message>
    ghost var clock: nat

    ghost predicate Valid()
      reads this
    {
      lastDebugMsg <= clock && forall c | 0 <= c < CHANNELS :: |queues[c]| <= QUEUE_LENGTH
    }

    constructor ()
      ensures Valid() && seen == [] && missingPackets == recvPackets == lastDebugMsg == clock == 0
      ensures lastPacketCount == 0
    {
      startTime, lastPacketCount, missingPackets, recvPackets, lastDebugMsg := 0, 0, 0, 0, 0;
      queues, seen, clock := [[], [], [], []], [], 0;
    }

    /** process_pulse_stream_packet: a packet whose size does not fit its count is refused. The counter says how many
        packets were lost before this one; a start message makes it the reference. Once a second, when the
        counters are reported, they begin anew. A start message begins only the count of missing packets anew. */
    method ProcessPacket(buffer: seq<byte>, r: Readings) returns (ok: bool, reported: bool)
      requires Valid() && Timely(clock, r) && (Fits(buffer) ==> |r.times| == buffer[0])
      modifies this
      ensures Valid() && ok == Fits(buffer) && reported == (ok && Reports(old(lastDebugMsg), r.at))
      ensures ok <==> |buffer| >= 4 && |buffer| == 4 + 16 * (buffer[0] as int)
      ensures reported <==> ok && r.at > old(lastDebugMsg) + 1_000_000
      ensures clock == if ok then Until(old(clock), r) else old(clock)
      ensures seen == old(seen) + if ok then MessagesOf(buffer) else []
      ensures (startTime, queues) ==
              if ok then Handled(old(startTime), old(queues), MessagesOf(buffer), r.times)
              else (old(startTime), old(queues))
      ensures lastPacketCount == if ok then buffer[1] else old(lastPacketCount)
      ensures recvPackets == if reported then 0 else old(recvPackets) + if |buffer| < HEADER then 0 else 1
      ensures missingPackets ==
              if !ok then old(missingPackets)
              else if reported || Restarts(MessagesOf(buffer)) then 0
              else old(missingPackets) + (buffer[1] - old(lastPacketCount) - 1) % 256
      ensures lastDebugMsg == if reported then r.stamp else old(lastDebugMsg)
    {
      hide Handled, Enqueued, MessageAt, Restarts, Timely, Until;
      TimelyEnds(clock, r);
      reported := false;
      if |buffer| < HEADER {
        return false, reported;
      }
      recvPackets := recvPackets + 1;
      var count: nat := buffer[0];
      if |buffer| != HEADER + MESSAGE_SIZE * count {
        return false, reported;
      }
      missingPackets := missingPackets + (buffer[1] - lastPacketCount - 1) % 256;
      lastPacketCount := buffer[1];
      if r.at - lastDebugMsg > REPORT_US {
        lastDebugMsg := r.stamp;
        missingPackets, recvPackets := 0, 0;
        reported := true;
      }
      clock := Until(clock, r);
      ProcessMessages(buffer, r.times);
      ok := true;
    }

    /** The loop over the messages of a packet. */
    method ProcessMessages(buffer: seq<byte>, times: seq<nat>)
      requires Valid() && Fits(buffer) && |times| == buffer[0] && lastPacketCount == buffer[1]
      modifies this`startTime, this`lastPacketCount, this`missingPackets, this`queues, this`seen
      ensures Valid() && seen == old(seen) + MessagesOf(buffer) && lastPacketCount == buffer[1]
      ensures (startTime, queues) == Handled(old(startTime), old(queues), MessagesOf(buffer), times)
      ensures missingPackets == if Restarts(MessagesOf(buffer)) then 0 else old(missingPackets)
    {
      hide Unpack, Enqueued, Handled, Restarts;
      ghost var all := MessagesOf(buffer);
      HandledNothing(startTime, queues);
      RestartsNothing();
      assert times[..0] == [];
      for i := 0 to buffer[0]
        invariant Valid() && lastPacketCount == buffer[1] && seen == old(seen) + all[..i]
        invariant (startTime, queues) == Handled(old(startTime), old(queues), all[..i], times[..i])
        invariant missingPackets == if Restarts(all[..i]) then 0 else old(missingPackets)
      {
        var msg := MessageAt(buffer, i);
        assert all[..i + 1] == all[..i] + [msg] && times[..i + 1] == times[..i] + [times[i]];
        ProcessMessage(msg, buffer[1], times[i]);
        HandledNext(old(startTime), old(queues), all[..i], times[..i], msg, times[i]);
        RestartsNext(all[..i], msg);
        seen := seen + [msg];
      }
      assert all[..buffer[0]] == all && times[..buffer[0]] == times;
    }

    /** One message: a start message makes its time the start and its packet the reference. */
    method ProcessMessage(msg: Message, packetCounter: byte, now: nat)
      requires Valid()
      modifies this`startTime, this`lastPacketCount, this`missingPackets, this`queues
      ensures Valid()
      ensures startTime == if msg.cmd == RESET then now else old(startTime)
      ensures queues == Enqueued(old(queues), msg, old(startTime), now)
      ensures missingPackets == if msg.cmd == RESET then 0 else old(missingPackets)
      ensures lastPacketCount == if msg.cmd == RESET then packetCounter else old(lastPacketCount)
    {
      hide Enqueued;
      EnqueuedNothing(queues, msg, startTime, now);
      if msg.cmd == RESET {
        startTime := now;
        missingPackets := 0;
        lastPacketCount := packetCounter;
      } else if msg.cmd == PULSE {
        ProcessPulse(msg, now);
      }
    }

    /** process_pulse_message: a pulse that is late or too strong is dropped; otherwise it goes to the queue of each
        channel that its mask selects, if there is room. */
    method ProcessPulse(msg: Message, now: nat)
      requires Valid() && msg.cmd == PULSE
      modifies this`queues
      ensures Valid()
      ensures queues == Enqueued(old(queues), msg, startTime, now)
      ensures (msg.time + startTime) % 0x1_0000_0000_0000_0000 < now || msg.amplitude > 1000 ==> queues == old(queues)
      ensures (msg.time + startTime) % 0x1_0000_0000_0000_0000 >= now && msg.amplitude <= 1000 ==>
                forall c | 0 <= c < 4 ::
                  var q, pos, neg := old(queues)[c], Bits(msg.mask)[2 * c], Bits(msg.mask)[2 * c + 1];
                  queues[c] == q + if pos == neg == 0 || |q| >= 50 then []
                                   else [PulseMsg((msg.time + startTime) % 0x1_0000_0000_0000_0000,
                                                  if pos == 1 then msg.pos else 0, if neg == 1 then msg.neg else 0,
                                                  msg.amplitude)]
    {
      hide Bits, ForChannel;
      EnqueuedNothing(queues, msg, startTime, now);
      forall c: nat | c < CHANNELS {
        AddedBits(msg, c, |queues[c]|, startTime, now);
      }
      if Due(msg, startTime) < now {
        return;
      }
      if msg.amplitude > 1000 {
        return;
      }
      for chan := 0 to CHANNELS
        invariant forall c | chan <= c < CHANNELS :: queues[c] == old(queues)[c]
        invariant forall c | 0 <= c < chan :: queues[c] == Enqueued(old(queues), msg, startTime, now)[c]
      {
        var opt := ForChannel(chan, msg.mask);
        if opt != 0 {
          var pos := if opt % 2 == 1 then msg.pos else 0;
          var neg := if opt / 2 == 1 then msg.neg else 0;
          if |queues[chan]| < QUEUE_LENGTH {
            queues := queues[chan := queues[chan] + [PulseMsg(Due(msg, startTime), pos, neg, msg.amplitude)]];
          }
        }
      }
    }
  }

  //
  // From end to end
  //

  const START := Message(RESET, 0, 0, 0, 0, 0)

  /** pulse_send_start reaches the receiver: missing packets and times count from now. Received packets do not, and the
      start message counts as one, unless they are just reported. */
  method StartStream(receiver: Receiver, r: Readings)
    requires receiver.Valid() && Timely(receiver.clock, r) && |r.times| == 1
    modifies receiver
    ensures receiver.Valid() && receiver.lastPacketCount == 0 && receiver.missingPackets == 0
    ensures receiver.recvPackets ==
            if Reports(old(receiver.lastDebugMsg), r.at) then 0 else old(receiver.recvPackets) + 1
    ensures receiver.lastDebugMsg ==
            if Reports(old(receiver.lastDebugMsg), r.at) then r.stamp else old(receiver.lastDebugMsg)
    ensures receiver.seen == old(receiver.seen) + [START] && receiver.queues == old(receiver.queues)
    ensures receiver.startTime == r.times[0] == receiver.clock
  {
    hide Pack, Unpack, MessageAt, Enqueued;
    PackAllOne(START);
    BatchReceived([START], 0);
    PacketShape([START], 0);
    assert START in [START];
    var ok, reported := receiver.ProcessPacket([1, 0, 0, 0] + Pack(START), r);
    HandledNothing(old(receiver.startTime), old(receiver.queues));
    HandledNext(old(receiver.startTime), old(receiver.queues), [], [], START, r.times[0]);
    EnqueuedNothing(old(receiver.queues), START, old(receiver.startTime), r.times[0]);
    assert r.times == [] + [r.times[0]] && [] + [START] == [START];
  }

  lemma PackAllOne(m: Message)
    requires Packable(m)
    ensures AllPackable([m]) && Packet([m], 0) == [1, 0, 0, 0] + Pack(m)
  {
    hide Pack;
    assert [m][..0] == [] && PackAll([m]) == PackAll([]) + Pack(m);
  }

  /** The batches of the packets with these numbers. */
  function Picked(batches: seq<seq<Message>>, arriving: seq<nat>): (r: seq<seq<Message>>)
    requires forall i | 0 <= i < |arriving| :: 1 <= arriving[i] <= |batches|
  {
    seq(|arriving|, i requires 0 <= i < |arriving| => batches[arriving[i] - 1])
  }

  /** The number of the packet that arrived last. */
  function LastOf(arriving: seq<nat>, last: nat): nat {
    if arriving == [] then last else arriving[|arriving| - 1]
  }

  /** Packets arrive in order, and are lost in runs shorter than 256. */
  predicate RunsShort(arriving: seq<nat>, last: nat) {
    forall i | 0 <= i < |arriving| :: LastOf(arriving[..i], last) < arriving[i] <= LastOf(arriving[..i], last) + 256
  }

  function UntilAll(from: nat, rs: seq<Readings>): nat {
    if rs == [] then from else Until(from, rs[|rs| - 1])
  }

  predicate TimelyAll(from: nat, rs: seq<Readings>) {
    forall i | 0 <= i < |rs| :: Timely(UntilAll(from, rs[..i]), rs[i])
  }

  /** When the counters were last reported. */
  function DebugAfter(lastDebugMsg: nat, rs: seq<Readings>): nat {
    if rs == [] then lastDebugMsg
    else
      var before, r := DebugAfter(lastDebugMsg, rs[..|rs| - 1]), rs[|rs| - 1];
      if Reports(before, r.at) then r.stamp else before
  }

  /** With which of the packets they were last reported. */
  function LastReport(lastDebugMsg: nat, rs: seq<Readings>): (i: Option<nat>)
    ensures i.Some? ==> i.value < |rs|
  {
    if rs == [] then None
    else if Reports(DebugAfter(lastDebugMsg, rs[..|rs| - 1]), rs[|rs| - 1].at) then Some(|rs| - 1)
    else LastReport(lastDebugMsg, rs[..|rs| - 1])
  }

  /** They are not reported just as long as packets come within the second. */
  lemma {:induction false} ReportedIfLate(lastDebugMsg: nat, rs: seq<Readings>)
    ensures LastReport(lastDebugMsg, rs) == None <==> forall r | r in rs :: r.at <= lastDebugMsg + REPORT_US
    ensures LastReport(lastDebugMsg, rs) == None ==> DebugAfter(lastDebugMsg, rs) == lastDebugMsg
  {
    if rs != [] {
      var n := |rs| - 1;
      ReportedIfLate(lastDebugMsg, rs[..n]);
      assert rs == rs[..n] + [rs[n]];
    }
  }

  function TimesOf(rs: seq<Readings>): seq<seq<nat>> {
    seq(|rs|, i requires 0 <= i < |rs| => rs[i].times)
  }

  /** A way in which packets of a sender reach the receiver, where packet number last was the one before. */
  ghost predicate Arrives(sender: PulseQueue, from: nat, arriving: seq<nat>, last: nat, rs: seq<Readings>)
    reads sender
    ensures Arrives(sender, from, arriving, last, rs) ==>
              && |rs| == |arriving| && |sender.sent| == |sender.batches|
              && forall i | 0 <= i < |arriving| :: 1 <= arriving[i] <= |sender.sent|
  {
    && sender.Valid() && (forall m | m in sender.added :: m.cmd == PULSE)
    && RunsShort(arriving, last) && (forall i | 0 <= i < |arriving| :: 1 <= arriving[i] <= |sender.batches|)
    && |rs| == |arriving| && TimelyAll(from, rs)
    && forall i | 0 <= i < |arriving| :: |rs[i].times| == |sender.batches[arriving[i] - 1]|
  }

  /** What received and missing packets add up to: those sent since the last report. */
  function Counted(before: nat, lastDebugMsg: nat, arriving: seq<nat>, last: nat, rs: seq<Readings>): int
    requires |rs| == |arriving|
  {
    match LastReport(lastDebugMsg, rs)
    case None => before + LastOf(arriving, last) - last
    case Some(i) => LastOf(arriving, last) - arriving[i]
  }

  /** Any of the sender's packets reach the receiver, in order. It sees exactly the pulses in them, and handles each
      at its time. Received and missing packets together are those sent since the counters were last reported. */
  method Deliver(sender: PulseQueue, receiver: Receiver, arriving: seq<nat>, last: nat, rs: seq<Readings>)
    requires receiver.Valid() && receiver.lastPacketCount == last % 256
    requires Arrives(sender, receiver.clock, arriving, last, rs)
    modifies receiver
    ensures receiver.Valid() && receiver.seen == old(receiver.seen) + Flat(Picked(sender.batches, arriving))
    ensures |Flat(TimesOf(rs))| == |Flat(Picked(sender.batches, arriving))|
    ensures (receiver.startTime, receiver.queues) ==
            Handled(old(receiver.startTime), old(receiver.queues),
                    Flat(Picked(sender.batches, arriving)), Flat(TimesOf(rs)))
    ensures receiver.lastPacketCount == LastOf(arriving, last) % 256
    ensures receiver.clock == UntilAll(old(receiver.clock), rs)
    ensures receiver.lastDebugMsg == DebugAfter(old(receiver.lastDebugMsg), rs)
    ensures receiver.recvPackets + receiver.missingPackets ==
            Counted(old(receiver.recvPackets + receiver.missingPackets), old(receiver.lastDebugMsg), arriving, last, rs)
    ensures receiver.missingPackets <= old(receiver.missingPackets) + LastOf(arriving, last) - last - |arriving|
  {
    hide Flat, Packet, AllPackable, Handled, Picked, TimesOf, DebugAfter, LastReport, Until, Reports, Arrives,
         RunsShort, TimelyAll, Timely, Counted, LastOf, UntilAll, PulseQueue.Valid;
    DeliveredNothing(sender, receiver, arriving, last, rs);
    for i := 0 to |arriving|
      invariant receiver.Valid() && receiver.seen == old(receiver.seen) + Flat(Picked(sender.batches, arriving[..i]))
      invariant |Flat(TimesOf(rs[..i]))| == |Flat(Picked(sender.batches, arriving[..i]))|
      invariant (receiver.startTime, receiver.queues) ==
                Handled(old(receiver.startTime), old(receiver.queues),
                        Flat(Picked(sender.batches, arriving[..i])), Flat(TimesOf(rs[..i])))
      invariant receiver.lastPacketCount == LastOf(arriving[..i], last) % 256
      invariant receiver.clock == UntilAll(old(receiver.clock), rs[..i])
      invariant receiver.lastDebugMsg == DebugAfter(old(receiver.lastDebugMsg), rs[..i])
      invariant receiver.recvPackets + receiver.missingPackets ==
                Counted(old(receiver.recvPackets + receiver.missingPackets), old(receiver.lastDebugMsg),
                        arriving[..i], last, rs[..i])
      invariant receiver.missingPackets <= old(receiver.missingPackets) + LastOf(arriving[..i], last) - last - i
    {
      ghost var before, n := LastOf(arriving[..i], last), arriving[i];
      ghost var batch := sender.batches[n - 1];
      ArrivesAt(sender, old(receiver.clock), arriving, last, rs, i);
      PickedNext(sender.batches, arriving, i);
      TimesNext(rs, i);
      CountedNext(old(receiver.recvPackets + receiver.missingPackets), old(receiver.lastDebugMsg), arriving, last, rs,
                  i);
      UntilNext(old(receiver.clock), rs, i);
      HandledAppend(old(receiver.startTime), old(receiver.queues), Flat(Picked(sender.batches, arriving[..i])),
                    Flat(TimesOf(rs[..i])), batch, rs[i].times);
      DeliverOne(receiver, sender.sent[arriving[i] - 1], batch, before, n, rs[i]);
    }
    assert arriving[..|arriving|] == arriving && rs[..|rs|] == rs;
  }

  /** One packet, some time after another. */
  method DeliverOne(receiver: Receiver, packet: seq<byte>, ghost batch: seq<Message>, ghost last: nat, ghost n: nat,
                    r: Readings)
    requires receiver.Valid() && receiver.lastPacketCount == last % 256 && last < n <= last + 256
    requires AllPackable(batch) && |batch| < 256 && packet == Packet(batch, n)
    requires forall m | m in batch :: m.cmd == PULSE
    requires Timely(receiver.clock, r) && |r.times| == |batch|
    modifies receiver
    ensures receiver.Valid() && receiver.seen == old(receiver.seen) + batch && receiver.lastPacketCount == n % 256
    ensures receiver.clock == Until(old(receiver.clock), r)
    ensures (receiver.startTime, receiver.queues) ==
            Handled(old(receiver.startTime), old(receiver.queues), batch, r.times)
    ensures if Reports(old(receiver.lastDebugMsg), r.at) then
              receiver.recvPackets == receiver.missingPackets == 0 && receiver.lastDebugMsg == r.stamp
            else
              && receiver.recvPackets == old(receiver.recvPackets) + 1
              && receiver.missingPackets == old(receiver.missingPackets) + n - last - 1
              && receiver.lastDebugMsg == old(receiver.lastDebugMsg)
  {
    hide Packet, MessageAt, AllPackable, Handled, Until, Timely;
    BatchReceived(batch, n);
    PacketShape(batch, n);
    GapCounted(last, n);
    var ok, reported := receiver.ProcessPacket(packet, r);
  }

  /** All packets of a sender reach the receiver: it sees exactly the pulses that were sent, once and in order, and
      counts none as missing. */
  method DeliverAll(sender: PulseQueue, receiver: Receiver, rs: seq<Readings>)
    requires receiver.Valid() && receiver.lastPacketCount == 0 && receiver.missingPackets == 0
    requires sender.Valid() && Arrives(sender, receiver.clock, Numbers(|sender.sent|), 0, rs)
    modifies receiver
    ensures receiver.Valid() && receiver.seen == old(receiver.seen) + Flat(sender.batches)
    ensures receiver.seen + sender.pulses == old(receiver.seen) + sender.added && receiver.missingPackets == 0
  {
    hide Flat, AllPackable, Packet, Handled, TimesOf, DebugAfter, LastReport, Until, Counted, Arrives;
    SenderIs(sender);
    assert Picked(sender.batches, Numbers(|sender.sent|)) == sender.batches;
    Deliver(sender, receiver, Numbers(|sender.sent|), 0, rs);
  }

  lemma AfterAll(sender: PulseQueue, from: nat, arriving: seq<nat>, rs: seq<Readings>)
    requires Arrives(sender, from, arriving, 0, rs)
    ensures forall n | n in arriving :: 1 <= n <= LastOf(arriving, 0)
  {
    AfterLast(arriving, 0);
  }

  lemma SenderIs(sender: PulseQueue)
    requires sender.Valid()
    ensures sender.added == Flat(sender.batches) + sender.pulses && |sender.sent| == |sender.batches|
  {
  }

  function Numbers(n: nat): (r: seq<nat>)
    ensures |r| == n && forall i | 0 <= i < n :: r[i] == i + 1
  {
    seq(n, i requires 0 <= i < n => (i + 1) as nat)
  }

  /** A stream from its start message. Received and missing packets add up to the packets sent after it just when
      the counters were reported with the start and not since; and to those with the start message just when nothing
      had been received before it and the counters were not reported from the start on. */
  method FromStart(sender: PulseQueue, receiver: Receiver, start: Readings, arriving: seq<nat>, rs: seq<Readings>)
    requires receiver.Valid() && Timely(receiver.clock, start) && |start.times| == 1
    requires Arrives(sender, start.times[0], arriving, 0, rs)
    modifies receiver
    ensures receiver.Valid() && receiver.seen == old(receiver.seen) + [START] + Flat(Picked(sender.batches, arriving))
    ensures receiver.recvPackets + receiver.missingPackets == LastOf(arriving, 0) <==>
            Reports(old(receiver.lastDebugMsg), start.at) && forall r | r in rs :: r.at <= start.stamp + REPORT_US
    ensures receiver.recvPackets + receiver.missingPackets == 1 + LastOf(arriving, 0) <==>
            && old(receiver.recvPackets) == 0
            && forall r | r in [start] + rs :: r.at <= old(receiver.lastDebugMsg) + REPORT_US
  {
    hide Flat, Picked, Handled, TimesOf, DebugAfter, LastReport, Packet, AllPackable, PulseQueue.Valid, TimelyAll,
         Timely, Arrives, RunsShort, UntilAll, Until;
    StartStream(receiver, start);
    ghost var d := receiver.lastDebugMsg;
    ReportedIfLate(d, rs);
    AfterAll(sender, start.times[0], arriving, rs);
    Deliver(sender, receiver, arriving, 0, rs);
    assert forall r | r in rs :: r in [start] + rs;
    assert start in [start] + rs;
  }

  /** If the pulses that arrive are on time and find room, each is in the queue of its own channel, as it was sent
      and in order, and in no other. */
  method DeliverOnTime(sender: PulseQueue, receiver: Receiver, arriving: seq<nat>, last: nat, rs: seq<Readings>,
                       ghost pulses: seq<(int, Message)>)
    requires receiver.Valid() && receiver.lastPacketCount == last % 256
    requires Arrives(sender, receiver.clock, arriving, last, rs)
    requires Messages(pulses) == Flat(Picked(sender.batches, arriving))
    requires |pulses| == |Flat(TimesOf(rs))|
    requires forall i | 0 <= i < |pulses| :: OnTime(pulses[i], receiver.startTime, Flat(TimesOf(rs))[i])
    requires forall c | 0 <= c < CHANNELS ::
               |receiver.queues[c]| + |ForQueue(pulses, c, receiver.startTime)| <= QUEUE_LENGTH
    modifies receiver
    ensures receiver.Valid() && receiver.startTime == old(receiver.startTime)
    ensures forall c | 0 <= c < CHANNELS ::
              receiver.queues[c] == old(receiver.queues)[c] + ForQueue(pulses, c, receiver.startTime)
  {
    hide Flat, Picked, Handled, TimesOf, DebugAfter, LastReport, Arrives, ForQueue, OnTime, Messages, UntilAll, Counted;
    QueuedForTheirChannels(receiver.startTime, receiver.queues, pulses, Flat(TimesOf(rs)));
    Deliver(sender, receiver, arriving, last, rs);
  }

  /** Whatever arrives, on time or not: an entry of a queue is of a pulse that was sent, handled no later than it is
      due, not too strong, and with the widths that its mask selects; and every such pulse has its entry, unless the
      queue is full. */
  method DeliverAny(sender: PulseQueue, receiver: Receiver, arriving: seq<nat>, last: nat, rs: seq<Readings>,
                    ghost c: nat)
    requires receiver.Valid() && receiver.lastPacketCount == last % 256 && c < 4
    requires Arrives(sender, receiver.clock, arriving, last, rs)
    modifies receiver
    ensures receiver.Valid() && old(receiver.queues)[c] <= receiver.queues[c] && |receiver.queues[c]| <= 50
    ensures |Flat(TimesOf(rs))| == |Flat(Picked(sender.batches, arriving))|
    ensures forall e | e in receiver.queues[c][|old(receiver.queues)[c]|..] ::
              var ms, times := Flat(Picked(sender.batches, arriving)), Flat(TimesOf(rs));
              exists i | 0 <= i < |ms| ::
                var m := ms[i];
                && e.time == (m.time + old(receiver.startTime)) % 0x1_0000_0000_0000_0000 >= times[i]
                && e.level == m.amplitude <= 1000 && (Bits(m.mask)[2 * c] == 1 || Bits(m.mask)[2 * c + 1] == 1)
                && e.pos == (if Bits(m.mask)[2 * c] == 1 then m.pos else 0)
                && e.neg == (if Bits(m.mask)[2 * c + 1] == 1 then m.neg else 0)
    ensures forall i | 0 <= i < |Flat(Picked(sender.batches, arriving))| ::
              var m := Flat(Picked(sender.batches, arriving))[i];
              var at := (m.time + old(receiver.startTime)) % 0x1_0000_0000_0000_0000;
              && at >= Flat(TimesOf(rs))[i] && m.amplitude <= 1000
              && (Bits(m.mask)[2 * c] == 1 || Bits(m.mask)[2 * c + 1] == 1) ==>
                || |receiver.queues[c]| == 50
                || PulseMsg(at, if Bits(m.mask)[2 * c] == 1 then m.pos else 0,
                            if Bits(m.mask)[2 * c + 1] == 1 then m.neg else 0, m.amplitude) in receiver.queues[c]
  {
    hide Flat, Picked, Handled, TimesOf, DebugAfter, LastReport, Arrives, UntilAll, Counted, Receiver.Valid, Bits,
         Takers, LastOf;
    PulsesArrive(sender, receiver.clock, arriving, last, rs);
    QueuesFit(receiver);
    ghost var ms, times, start, q := Flat(Picked(sender.batches, arriving)), Flat(TimesOf(rs)), receiver.startTime,
      receiver.queues;
    Deliver(sender, receiver, arriving, last, rs);
    QueueGrows(start, q, ms, times, c);
    forall e | e in receiver.queues[c][|q[c]|..]
      ensures exists i | 0 <= i < |ms| ::
                var m := ms[i];
                && e.time == (m.time + start) % 0x1_0000_0000_0000_0000 >= times[i]
                && e.level == m.amplitude <= 1000 && (Bits(m.mask)[2 * c] == 1 || Bits(m.mask)[2 * c + 1] == 1)
                && e.pos == (if Bits(m.mask)[2 * c] == 1 then m.pos else 0)
                && e.neg == (if Bits(m.mask)[2 * c + 1] == 1 then m.neg else 0)
    {
      EntryQueued(start, q, ms, times, c, e);
    }
    forall i: nat |
      && i < |ms| && (ms[i].time + start) % 0x1_0000_0000_0000_0000 >= times[i] && ms[i].amplitude <= 1000
      && (Bits(ms[i].mask)[2 * c] == 1 || Bits(ms[i].mask)[2 * c + 1] == 1)
    {
      MessageQueued(start, q, ms, times, c, i);
    }
  }

  lemma QueuesFit(receiver: Receiver)
    requires receiver.Valid()
    ensures forall c | 0 <= c < CHANNELS :: |receiver.queues[c]| <= 50
  {
  }

  lemma PulsesArrive(sender: PulseQueue, from: nat, arriving: seq<nat>, last: nat, rs: seq<Readings>)
    requires Arrives(sender, from, arriving, last, rs)
    ensures var ms := Flat(Picked(sender.batches, arriving)); forall i | 0 <= i < |ms| :: ms[i].cmd == 2
  {
    hide Flat, PulseQueue.Valid, RunsShort, TimelyAll;
    forall i | 0 <= i < |arriving|
      ensures forall m | m in Picked(sender.batches, arriving)[i] :: m.cmd == 2
    {
      PulsesOnly(sender, arriving[i] - 1);
    }
    AllInFlat(Picked(sender.batches, arriving));
  }

  lemma {:induction false} AllInFlat(batches: seq<seq<Message>>)
    requires forall i | 0 <= i < |batches| :: forall m | m in batches[i] :: m.cmd == 2
    ensures forall m | m in Flat(batches) :: m.cmd == 2
  {
    if batches != [] {
      AllInFlat(batches[..|batches| - 1]);
    }
  }

  /** For instance, a stream that is started twice in the first second: two packets count as received, and none was
      sent. */
  method StartedTwice() returns (receiver: Receiver)
    ensures receiver.recvPackets + receiver.missingPackets == 2
  {
    receiver := new Receiver();
    StartStream(receiver, Readings(0, 0, [0]));
    StartStream(receiver, Readings(0, 0, [0]));
  }

  /** Or one whose first pulse comes more than a second after the start: it is not counted. */
  method ReportedBetween() returns (sender: PulseQueue, receiver: Receiver)
    ensures |sender.sent| == 1 && receiver.recvPackets + receiver.missingPackets == 0
    ensures receiver.seen == [START, Message(PULSE, 1, 1, 3, 0, 1)]
  {
    hide Packet, Handled, Flat, Pack;
    var pulse := Message(PULSE, 1, 1, 3, 0, 1);
    sender := new PulseQueue();
    receiver := new Receiver();
    sender.AddToOutboundQueue(pulse);
    assert sender.pulses == [pulse];
    sender.SendIfOld(0);
    assert sender.batches == [[pulse]];
    OnePacket(sender, pulse);
    StartStream(receiver, Readings(0, 0, [0]));
    DeliverOne(receiver, sender.sent[0], [pulse], 0, 1, Readings(REPORT_US + 1, REPORT_US + 1, [REPORT_US + 1]));
  }

  lemma OnePacket(sender: PulseQueue, pulse: Message)
    requires sender.Valid() && sender.batches == [[pulse]]
    ensures sender.sent == [Packet([pulse], 1)] && AllPackable([pulse])
  {
    hide Packet;
  }

  lemma DeliveredNothing(sender: PulseQueue, receiver: Receiver, arriving: seq<nat>, last: nat, rs: seq<Readings>)
    ensures Picked(sender.batches, []) == [] && Flat<Message>([]) == [] && TimesOf([]) == [] && Flat<nat>([]) == []
    ensures Handled(receiver.startTime, receiver.queues, [], []) == (receiver.startTime, receiver.queues)
    ensures arriving[..0] == [] && rs[..0] == [] && DebugAfter(receiver.lastDebugMsg, []) == receiver.lastDebugMsg
    ensures forall before :: Counted(before, receiver.lastDebugMsg, [], last, []) == before
    ensures LastOf([], last) == last && UntilAll(receiver.clock, []) == receiver.clock
  {
  }

  lemma TimesNext(rs: seq<Readings>, i: nat)
    requires i < |rs|
    ensures Flat(TimesOf(rs[..i + 1])) == Flat(TimesOf(rs[..i])) + rs[i].times
  {
    FlatNext(TimesOf(rs[..i]), rs[i].times);
    assert TimesOf(rs[..i + 1]) == TimesOf(rs[..i]) + [rs[i].times];
  }

  lemma CountedNext(before: nat, lastDebugMsg: nat, arriving: seq<nat>, last: nat, rs: seq<Readings>, i: nat)
    requires |rs| == |arriving| && i < |rs|
    ensures LastOf(arriving[..i + 1], last) == arriving[i]
    ensures
      var d := DebugAfter(lastDebugMsg, rs[..i]);
      && DebugAfter(lastDebugMsg, rs[..i + 1]) == (if Reports(d, rs[i].at) then rs[i].stamp else d)
      && Counted(before, lastDebugMsg, arriving[..i + 1], last, rs[..i + 1]) ==
         if Reports(d, rs[i].at) then 0
         else Counted(before, lastDebugMsg, arriving[..i], last, rs[..i]) + arriving[i] - LastOf(arriving[..i], last)
  {
    assert rs[..i + 1][..i] == rs[..i] && arriving[..i + 1][..i] == arriving[..i];
  }

  lemma UntilNext(from: nat, rs: seq<Readings>, i: nat)
    requires i < |rs|
    ensures UntilAll(from, rs[..i + 1]) == Until(UntilAll(from, rs[..i]), rs[i])
  {
  }

  lemma ArrivesAt(sender: PulseQueue, from: nat, arriving: seq<nat>, last: nat, rs: seq<Readings>, i: nat)
    requires Arrives(sender, from, arriving, last, rs) && i < |arriving|
    ensures LastOf(arriving[..i], last) < arriving[i] <= LastOf(arriving[..i], last) + 256
    ensures Timely(UntilAll(from, rs[..i]), rs[i])
    ensures
      var batch := sender.batches[arriving[i] - 1];
      && |rs[i].times| == |batch| < 256 && AllPackable(batch)
      && sender.sent[arriving[i] - 1] == Packet(batch, arriving[i])
      && forall m | m in batch :: m.cmd == PULSE
  {
    hide Packet, AllPackable, Flat;
    PulsesOnly(sender, arriving[i] - 1);
  }

  lemma {:induction false} AfterLast(arriving: seq<nat>, last: nat)
    requires RunsShort(arriving, last)
    ensures forall n | n in arriving :: last < n <= LastOf(arriving, last)
    ensures LastOf(arriving, last) >= last
  {
    if arriving != [] {
      var k := |arriving| - 1;
      assert RunsShort(arriving[..k], last) by {
        assert forall i | 0 <= i < k :: arriving[..k][..i] == arriving[..i];
      }
      assert LastOf(arriving[..k], last) < arriving[k];
      hide RunsShort;
      AfterLast(arriving[..k], last);
      assert arriving == arriving[..k] + [arriving[k]];
    }
  }

  lemma PickedNext(batches: seq<seq<Message>>, arriving: seq<nat>, i: nat)
    requires i < |arriving| && forall k | 0 <= k < |arriving| :: 1 <= arriving[k] <= |batches|
    ensures arriving[..i + 1][..i] == arriving[..i]
    ensures Flat(Picked(batches, arriving[..i + 1])) == Flat(Picked(batches, arriving[..i])) + batches[arriving[i] - 1]
  {
    assert arriving[..i + 1][..i] == arriving[..i];
    assert Picked(batches, arriving[..i + 1]) == Picked(batches, arriving[..i]) + [batches[arriving[i] - 1]];
    assert Picked(batches, arriving[..i + 1])[..i] == Picked(batches, arriving[..i]);
  }

  /** What a sender has sent are pulses, in packets that the receiver can take apart. */
  lemma PulsesOnly(sender: PulseQueue, i: nat)
    requires sender.Valid() && i < |sender.batches| == |sender.sent| && forall m | m in sender.added :: m.cmd == PULSE
    ensures AllPackable(sender.batches[i]) && |sender.batches[i]| < 256
    ensures sender.sent[i] == Packet(sender.batches[i], i + 1)
    ensures forall m | m in sender.batches[i] :: m.cmd == PULSE
  {
    hide Flat;
    InFlat(sender.batches, i);
    assert forall m | m in Flat(sender.batches) :: m in Flat(sender.batches) + sender.pulses;
  }

  lemma {:induction false} InFlat(batches: seq<seq<Message>>, i: nat)
    requires i < |batches|
    ensures forall m | m in batches[i] :: m in Flat(batches)
    decreases |batches|
  {
    if i < |batches| - 1 {
      InFlat(batches[..|batches| - 1], i);
    }
  }

  /** The gap between two numbers of packets, in eight bits. */
  lemma GapCounted(last: nat, now: nat)
    requires last < now <= last + 256
    ensures (now % 256 - last % 256 - 1) % 256 == now - last - 1
  {
    var q := now / 256 - last / 256;
    assert now % 256 - last % 256 - 1 == now - last - 1 - 256 * q;
  }
}
