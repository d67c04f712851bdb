/** Sending over the serial port (CSerialConnection.cpp): an answer goes into the transmit queue as a whole or not at
    all, and the interrupt handler puts the queue on the wire. */
module Transmission {
  import opened Bytes
  import opened Sequences

  const STX: byte := 2
  const ETX: byte := 3
  const TX_QUEUE_SIZE := 2000

  /** A text that is to be sent, and the free space that it finds in the queue. */
  datatype Offer = Offer(text: seq<byte>, space: nat)

  predicate Fits(o: Offer) {
    |o.text| <= o.space
  }

  function Framed(text: seq<byte>): seq<byte> {
    [STX] + CString(text) + [ETX]
  }

  /** The frames of those that fit. */
  function Frames(offers: seq<Offer>): seq<seq<byte>> {
    if offers == [] then []
    else Frames(offers[..|offers| - 1]) + if Fits(offers[|offers| - 1]) then [Framed(offers[|offers| - 1].text)] else []
  }

  datatype LineState = Line(offers: seq<Offer>, wire: seq<byte>, queue: seq<byte>)

  /** What is on the wire and in the queue are whole frames of exactly the texts that fitted, in order. */
  predicate Tidy(l: LineState) {
    l.wire + l.queue == Flat(Frames(l.offers)) && |l.queue| <= TX_QUEUE_SIZE
  }

  type SerialLine = l: LineState | Tidy(l) witness Line([], [], [])

  /** The transmit part of the interrupt handler: some bytes of the queue go out. */
  method Transmit(line: SerialLine) returns (l: SerialLine)
    ensures l.offers == line.offers && l.wire + l.queue == line.wire + line.queue && |l.queue| <= |line.queue|
    ensures line.wire <= l.wire
  {
    var n: nat :| n <= |line.queue|;
    assert line.wire + line.queue[..n] + line.queue[n..] == line.wire + line.queue;
    l := Line(line.offers, line.wire + line.queue[..n], line.queue[n..]);
  }

  /** Waiting until the queue is empty. */
  method Flush(line: SerialLine) returns (l: SerialLine)
    ensures l.offers == line.offers && l.wire == line.wire + line.queue && l.queue == []
  {
    l := Line(line.offers, line.wire + line.queue, []);
  }

  /** queue_add_blocking: when the queue is full it waits for the interrupt handler. */
  method Put(wire: seq<byte>, queue: seq<byte>, b: byte) returns (w: seq<byte>, q: seq<byte>)
    requires |queue| <= TX_QUEUE_SIZE
    ensures w + q == wire + queue + [b] && |q| <= TX_QUEUE_SIZE && wire <= w
  {
    w, q := wire, queue;
    if |q| == TX_QUEUE_SIZE {
      var n: nat :| 1 <= n <= |q|;
      assert wire + q[..n] + q[n..] == wire + q;
      w, q := w + q[..n], q[n..];
    }
    q := q + [b];
  }

  /** send: a text that is longer than the free space is dropped, and whoever sends it is not told. */
  method Send(line: SerialLine, text: seq<byte>) returns (l: SerialLine)
    ensures exists space :: TX_QUEUE_SIZE - |line.queue| <= space <= TX_QUEUE_SIZE &&
                            l.offers == line.offers + [Offer(text, space)]
    ensures line.wire <= l.wire
    ensures l.wire + l.queue ==
            line.wire + line.queue + if Fits(l.offers[|l.offers| - 1]) then Framed(text) else []
    ensures l.wire + l.queue ==
            line.wire + line.queue +
            if |text| <= l.offers[|l.offers| - 1].space then [2] + text[..StrLen(text)] + [3] else []
  {
    hide Flat;
    var before := Transmit(line);
    var space := TX_QUEUE_SIZE - |before.queue|;
    var offers := before.offers + [Offer(text, space)];
    FramesNext(before.offers, Offer(text, space));
    if |text| > space {
      l := Line(offers, before.wire, before.queue);
      return;
    }
    var w, q := Put(before.wire, before.queue, STX);
    var all := before.wire + before.queue + [STX];
    for i := 0 to StrLen(text)
      invariant w + q == all + text[..i] && |q| <= TX_QUEUE_SIZE && before.wire <= w
    {
      assert text[..i + 1] == text[..i] + [text[i]];
      w, q := Put(w, q, text[i]);
    }
    w, q := Put(w, q, ETX);
    WholeFrame(before.wire + before.queue, text);
    l := Line(offers, w, q);
  }

  lemma FramesNext(offers: seq<Offer>, o: Offer)
    ensures Flat(Frames(offers + [o])) == Flat(Frames(offers)) + if Fits(o) then Framed(o.text) else []
  {
    assert (offers + [o])[..|offers|] == offers;
    if Fits(o) {
      FlatNext(Frames(offers), Framed(o.text));
    } else {
      assert Frames(offers) + [] == Frames(offers);
    }
  }

  lemma WholeFrame(before: seq<byte>, text: seq<byte>)
    ensures before + [STX] + text[..StrLen(text)] + [ETX] == before + Framed(text)
  {
  }

  /** For instance, a text of 2001 bytes is dropped even if the queue is empty. */
  method TooLongToSend(line: SerialLine, text: seq<byte>) returns (l: SerialLine)
    requires line.queue == [] && |text| == TX_QUEUE_SIZE + 1
    ensures l.wire + l.queue == line.wire && l.offers == line.offers + [Offer(text, TX_QUEUE_SIZE)]
  {
    l := Send(line, text);
  }
}
