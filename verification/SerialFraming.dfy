/** Messages over the serial port: the receive machine of CSerialConnection.cpp in front of the message processor. */
module SerialFraming {
  import opened Bytes
  import opened Protocol
  import opened MessageProcessing
  import opened RoutineRunning
  import opened Transmission

  const EOT: byte := 4

  datatype Reception = IDLE | RECV | GOT_MESSAGE | RESET

  class SerialConnection {
    var state: Reception
    const recvBuffer: array<byte>
    var recvPosition: nat
    var resetConnection: bool
    var processor: MessageProcessor
    ghost var delivered: seq<seq<byte>>

    ghost function Parts(): set<object>
      reads this, processor
    {
      {this, recvBuffer, processor, processor.outbox} + processor.Parts()
    }

    ghost predicate Valid()
      reads this, recvBuffer, processor, processor.Parts()
    {
      Connected() && state != RESET && (state == GOT_MESSAGE ==> recvPosition <= MAX)
    }

    ghost predicate Connected()
      reads this, recvBuffer, processor, processor.Parts()
    {
      && recvBuffer.Length == MAX + 3 && recvPosition <= MAX + 1
      && processor.Valid() && this !in processor.Parts() && recvBuffer !in processor.Parts()
    }

    /** Ready for a message: nothing waits to be handled or to be reset. */
    ghost predicate Ready()
      reads this, recvBuffer, processor, processor.Parts()
    {
      Valid() && state == IDLE && !resetConnection && !processor.pendingMessage
    }

    constructor (processor: MessageProcessor)
      requires processor.Valid() && !processor.pendingMessage
      ensures Ready() && recvPosition == 0 && delivered == [] && this.processor == processor && fresh(recvBuffer)
    {
      state, recvPosition, resetConnection, delivered := IDLE, 0, false, [];
      recvBuffer := new byte[MAX + 3](_ => 0);
      this.processor := processor;
    }

    /** on_uart_irq, for one received byte; first it sends what it can. */
    method OnReceive(ch: byte)
      requires Valid()
      modifies this`state, this`recvPosition, this`resetConnection, recvBuffer, processor.outbox
      ensures Valid() && SentAsBefore()
      ensures resetConnection == (old(resetConnection) || ch == EOT)
      ensures resetConnection || old(state) == GOT_MESSAGE || (old(state) == IDLE && ch != STX) ==>
                state == old(state) && recvPosition == old(recvPosition) && recvBuffer[..] == old(recvBuffer[..])
      ensures !resetConnection && old(state) == IDLE && ch == STX ==>
                state == RECV && recvPosition == old(recvPosition) && recvBuffer[..] == old(recvBuffer[..])
      ensures !resetConnection && old(state) == RECV ==>
                if old(recvPosition) > MAX then state == IDLE && recvPosition == 0
                else if ch == ETX then
                  state == GOT_MESSAGE && recvPosition == old(recvPosition) && recvBuffer[..] == old(recvBuffer[..])
                else
                  && state == RECV && recvPosition == old(recvPosition) + 1
                  && recvBuffer[..recvPosition] == old(recvBuffer[..recvPosition]) + [ch]
    {
      hide Tidy, MessageProcessor.Valid;
      processor.outbox.Interrupt();
      if ch == EOT {
        resetConnection := true;
      }
      if !resetConnection {
        match state
        case IDLE =>
          if ch == STX {
            state := RECV;
          }
        case RECV =>
          if recvPosition > MAX || recvPosition > recvBuffer.Length - 2 {
            recvPosition := 0;
            forall i | 0 <= i < recvBuffer.Length {
              recvBuffer[i] := 0;
            }
            state := IDLE;
          } else if ch == ETX {
            state := GOT_MESSAGE;
          } else {
            recvBuffer[recvPosition] := ch;
            recvPosition := recvPosition + 1;
          }
        case _ =>
      }
    }

    /** Nothing more was handed to send. */
    twostate predicate SentAsBefore()
      reads this, processor, processor.outbox
    {
      && processor == old(processor) && processor.outbox == old(processor.outbox)
      && processor.outbox.history.sent == old(processor.outbox.history.sent)
      && processor.outbox.history.line.offers == old(processor.outbox.history.line.offers)
    }

    /** The message that waits for the loop, if any. */
    ghost function Waiting(): seq<seq<byte>>
      requires recvPosition <= recvBuffer.Length
      reads this, recvBuffer
    {
      if state == GOT_MESSAGE then [recvBuffer[..recvPosition]] else []
    }

    /** loop: a complete message goes to the processor, which handles it; then a reset is carried out, with a new
        processor. The reset does not touch what has been received of a message. */
    method Loop() returns (ok: bool)
      requires Valid() && !processor.pendingMessage
      modifies Parts()
      ensures Valid() && !resetConnection && !processor.pendingMessage
      ensures fresh(processor.Owned() - old(processor.Owned()))
      ensures delivered == old(delivered + Waiting())
      ensures if old(state) == GOT_MESSAGE then recvPosition == 0
              else recvPosition == old(recvPosition) && recvBuffer[..] == old(recvBuffer[..])
      ensures processor.outbox == old(processor.outbox) && processor.parse == old(processor.parse)
      ensures processor.storage == old(processor.storage) && processor.output == old(processor.output)
      ensures Replies(processor.outbox.history.sent) == Replies(old(processor.outbox.history.sent)) +
              if old(state) == GOT_MESSAGE then
                [old(processor).Answer(old(processor.state), old(recvBuffer[..recvPosition]), ok)]
              else []
      ensures old(processor).handled ==
              old(processor.handled) +
              if old(state) == GOT_MESSAGE then [CString(old(recvBuffer[..recvPosition]))] else []
      ensures old(resetConnection) ==>
                state == IDLE && fresh(processor) && processor.state == ACTIVE && processor.output.Idle()
      ensures !old(resetConnection) ==>
                state == (if old(state) == GOT_MESSAGE then IDLE else old(state)) && processor == old(processor)
    {
      hide Tidy, MessageProcessor.Valid, MessageProcessor.Owned, RoutineOutput.Idle, Replies, CString,
           MessageProcessor.Answer;
      ok := HandleWaiting();
      if resetConnection && state != GOT_MESSAGE {
        Reset();
      }
    }

    method HandleWaiting() returns (ok: bool)
      requires Valid() && !processor.pendingMessage
      modifies Parts()
      ensures Connected() && processor == old(processor) && resetConnection == old(resetConnection)
      ensures !processor.pendingMessage && fresh(processor.Owned() - old(processor.Owned()))
      ensures delivered == old(delivered + Waiting())
      ensures if old(state) == GOT_MESSAGE then recvPosition == 0 && state == (if resetConnection then RESET else IDLE)
              else state == old(state) && recvPosition == old(recvPosition) && recvBuffer[..] == old(recvBuffer[..])
      ensures Replies(processor.outbox.history.sent) == Replies(old(processor.outbox.history.sent)) +
              if old(state) == GOT_MESSAGE then
                [processor.Answer(old(processor.state), old(recvBuffer[..recvPosition]), ok)]
              else []
      ensures processor.handled ==
              old(processor.handled) +
              if old(state) == GOT_MESSAGE then [CString(old(recvBuffer[..recvPosition]))] else []
    {
      hide Tidy, MessageProcessor.Valid, Replies, CString, MessageProcessor.Answer;
      if state == GOT_MESSAGE {
        HandOver();
        state := if resetConnection then RESET else IDLE;
      }
      ok := Turn();
    }

    method Turn() returns (ok: bool)
      requires Connected()
      modifies processor.Parts(), processor.outbox
      ensures Connected() && !processor.pendingMessage && fresh(processor.Owned() - old(processor.Owned()))
      ensures Replies(processor.outbox.history.sent) == Replies(old(processor.outbox.history.sent)) +
              if old(processor.pendingMessage) then
                [processor.Answer(old(processor.state), old(processor.pendingText), ok)]
              else []
      ensures processor.handled ==
              old(processor.handled) +
              if old(processor.pendingMessage) then [CString(old(processor.pendingText))] else []
    {
      hide Tidy, MessageProcessor.Valid, Replies, CString, MessageProcessor.Answer, NextState, StateFor;
      var behind: seq<byte>, powerChanged: bool, scriptFailed: bool := *, *, *;
      ok := processor.Loop(behind, powerChanged, scriptFailed);
    }

    method HandOver()
      requires Valid() && state == GOT_MESSAGE && !processor.pendingMessage
      modifies this`recvPosition, this`delivered, recvBuffer
      modifies processor`pendingMessage, processor`pendingText, processor.pendingBuffer, processor.outbox
      ensures Connected() && recvPosition == 0 && delivered == old(delivered + Waiting())
      ensures processor.pendingMessage && processor.pendingText == old(recvBuffer[..recvPosition])
      ensures processor.outbox.history.sent == old(processor.outbox.history.sent)
    {
      hide Tidy, MessageProcessor.Owning, MessageProcessor.LoaderValid;
      processor.TakeMessage(recvBuffer[..recvPosition]);
      assert processor.Valid() && this !in processor.Parts() && recvBuffer !in processor.Parts();
      delivered := delivered + [recvBuffer[..recvPosition]];
      recvPosition := 0;
      // Clears as many bytes as the position takes to store, not the buffer.
      recvBuffer[0], recvBuffer[1] := 0, 0;
      assert processor.Valid();
    }

    /** The transmit queue goes out, and a new processor begins; a routine that runs is stopped. */
    method Reset()
      requires Connected()
      modifies this`state, this`resetConnection, this`processor, processor`luaLoad, processor`routineRun,
               processor.output, processor.outbox
      ensures Valid() && fresh(processor) && fresh(processor.Owned()) && !processor.pendingMessage
      ensures state == IDLE && !resetConnection && processor.state == ACTIVE && processor.output.Idle()
      ensures processor.outbox == old(processor.outbox) && processor.parse == old(processor.parse)
      ensures processor.storage == old(processor.storage) && processor.output == old(processor.output)
      ensures processor.outbox.history.sent == old(processor.outbox.history.sent)
      ensures processor.outbox.history.line.queue == []
    {
      hide Tidy, MessageProcessor.Valid, RoutineOutput.Idle;
      processor.outbox.FlushQueue();
      var next := NextProcessor();
      processor := next;
      state := IDLE;
      resetConnection := false;
    }

    method NextProcessor() returns (next: MessageProcessor)
      requires processor.Valid()
      modifies processor`luaLoad, processor`routineRun, processor.output
      ensures next.Valid() && fresh(next) && fresh(next.Owned()) && !next.pendingMessage
      ensures next.state == ACTIVE && next.output.Idle() && next.outbox == processor.outbox
      ensures next.parse == processor.parse
      ensures next.storage == processor.storage && next.output == processor.output
      ensures this !in next.Parts() && recvBuffer !in next.Parts()
    {
      hide Tidy, MessageProcessor.Valid, RoutineOutput.Idle;
      processor.Destroy();
      next := new MessageProcessor(processor.storage, processor.output, processor.outbox, processor.catalogue,
                                   processor.parse, processor.routines);
    }

    /** A frame arrives while the machine is idle, and the loop runs after it: a message of at most 300 bytes is
        delivered and handled, a longer one is dropped, and the machine is ready for the next frame either way.
        Bytes left over from a reset in the middle of a message come first. */
    method Frame(m: seq<byte>) returns (ok: bool)
      requires Ready() && Plain(m)
      modifies Parts()
      ensures Ready() && recvPosition == 0 && fresh(processor.Owned() - old(processor.Owned()))
      ensures processor == old(processor)
      ensures
        var text := old(recvBuffer[..recvPosition]) + m;
        if |text| <= MAX then
          && delivered == old(delivered) + [text] && processor.handled == old(processor.handled) + [CString(text)]
          && Replies(processor.outbox.history.sent) ==
             Replies(old(processor.outbox.history.sent)) + [processor.Answer(old(processor.state), text, ok)]
        else
          && delivered == old(delivered) && processor.handled == old(processor.handled)
          && Replies(processor.outbox.history.sent) == Replies(old(processor.outbox.history.sent))
    {
      hide Tidy, MessageProcessor.Valid, Replies;
      ghost var left := recvBuffer[..recvPosition];
      ghost var text := left + m;
      ReceiveFrame(m);
      if state == GOT_MESSAGE {
        assert recvBuffer[..recvPosition] == text;
      }
      ok := Loop();
    }

    method ReceiveFrame(m: seq<byte>)
      requires Valid() && state == IDLE && !resetConnection && Plain(m)
      modifies this`state, this`recvPosition, this`resetConnection, recvBuffer, processor.outbox
      ensures Valid() && !resetConnection && SentAsBefore()
      ensures
        var text := old(recvBuffer[..recvPosition]) + m;
        if |text| <= MAX then state == GOT_MESSAGE && recvBuffer[..recvPosition] == text
        else state == IDLE && recvPosition == 0
    {
      hide Tidy, MessageProcessor.Valid;
      ghost var left := recvBuffer[..recvPosition];
      OnReceive(STX);
      for i := 0 to |m|
        invariant Valid() && !resetConnection && SentAsBefore()
        invariant if |left| + i <= MAX + 1 then
                    state == RECV && recvBuffer[..recvPosition] == left + m[..i] && recvPosition == |left| + i
                  else state == IDLE && recvPosition == 0
      {
        OnReceive(m[i]);
      }
      assert m[..|m|] == m;
      OnReceive(ETX);
    }
  }

  /** No byte that means something to the receive machine. */
  predicate Plain(m: seq<byte>) {
    forall i | 0 <= i < |m| :: m[i] != STX && m[i] != ETX && m[i] != EOT
  }

  /** A stream of frames: exactly the messages of at most 300 bytes are delivered, in order and unchanged; each is
      handled as its own text, with nothing of an earlier one, and answered once under its own number. The answers go
      out, all of them, just when each was no longer than the free space that it found in the transmit queue. */
  method Stream(c: SerialConnection, ms: seq<seq<byte>>)
    requires c.Ready() && c.recvPosition == 0 && forall i | 0 <= i < |ms| :: Plain(ms[i])
    modifies c.Parts()
    ensures c.Ready() && c.recvPosition == 0 && c.processor == old(c.processor)
    ensures c.delivered == old(c.delivered) + NotTooLong(ms)
    ensures c.processor.handled == old(c.processor.handled) + Texts(NotTooLong(ms))
    ensures Ids(Replies(c.processor.outbox.history.sent)) ==
            Ids(Replies(old(c.processor.outbox.history.sent))) + Numbers(c.processor, NotTooLong(ms))
    ensures old(c.processor.outbox.history.sent) == [] ==>
              (Ids(Replies(Gone(c.processor.outbox.history))) == Numbers(c.processor, NotTooLong(ms)) <==>
               AnswersFit(c.processor.outbox.history))
  {
    hide Tidy, MessageProcessor.Valid, Replies, Ids, Texts, Numbers, CString, MessageProcessor.Answer;
    NoMessages(c.processor);
    for i := 0 to |ms|
      invariant c.Ready() && c.recvPosition == 0 && fresh(c.processor.Owned() - old(c.processor.Owned()))
      invariant c.processor == old(c.processor) && c.delivered == old(c.delivered) + NotTooLong(ms[..i])
      invariant c.processor.handled == old(c.processor.handled) + Texts(NotTooLong(ms[..i]))
      invariant Ids(Replies(c.processor.outbox.history.sent)) ==
                Ids(Replies(old(c.processor.outbox.history.sent))) + Numbers(c.processor, NotTooLong(ms[..i]))
    {
      assert ms[..i + 1][..i] == ms[..i] && NotTooLong(ms[..i]) + [] == NotTooLong(ms[..i]);
      assert c.recvBuffer[..0] + ms[i] == ms[i];
      ghost var before, s := Replies(c.processor.outbox.history.sent), c.processor.state;
      var ok := c.Frame(ms[i]);
      OneMore(c.processor, NotTooLong(ms[..i]), ms[i], before, s, ok);
    }
    assert ms[..|ms|] == ms;
    AllAnswersGone(c.processor.outbox.history);
    SameNumbers(Replies(Gone(c.processor.outbox.history)), Replies(c.processor.outbox.history.sent));
  }

  lemma SameNumbers(gone: seq<Sent>, sent: seq<Sent>)
    ensures gone == sent ==> Ids(gone) == Ids(sent)
    ensures |gone| != |sent| ==> Ids(gone) != Ids(sent)
    ensures Replies([]) == [] && Ids([]) == []
  {
  }

  function NotTooLong(ms: seq<seq<byte>>): seq<seq<byte>> {
    if ms == [] then [] else NotTooLong(ms[..|ms| - 1]) + if |ms[|ms| - 1]| <= MAX then [ms[|ms| - 1]] else []
  }

  /** What the processor reads of the messages. */
  function Texts(ms: seq<seq<byte>>): seq<seq<byte>> {
    seq(|ms|, i requires 0 <= i < |ms| => CString(ms[i]))
  }

  /** The numbers of the messages. */
  function Numbers(p: MessageProcessor, ms: seq<seq<byte>>): seq<int> {
    seq(|ms|, i requires 0 <= i < |ms| => p.IdOf(ms[i]))
  }

  lemma NoMessages(p: MessageProcessor)
    ensures Texts([]) == [] && Numbers(p, []) == []
  {
  }

  lemma OneMore(p: MessageProcessor, ms: seq<seq<byte>>, m: seq<byte>, before: seq<Sent>, s: State, ok: bool)
    ensures Texts(ms + [m]) == Texts(ms) + [CString(m)]
    ensures |m| <= MAX ==> Ids(before + [p.Answer(s, m, ok)]) == Ids(before) + [p.IdOf(m)]
    ensures Numbers(p, ms + [m]) == Numbers(p, ms) + [p.IdOf(m)]
  {
  }

  /** A reset between frames leaves nothing behind; in the middle of a message it does: the bytes received before
      it become part of the next message. That message arrives unchanged just when there were none; it is lost if
      it has become too long. A message that was complete before the reset is handled first. */
  method AfterReset(c: SerialConnection, m: seq<byte>)
    requires c.Valid() && !c.resetConnection && !c.processor.pendingMessage && Plain(m) && |m| <= MAX
    modifies c.Parts()
    ensures c.Ready() && c.recvPosition == 0 && fresh(c.processor) && c.processor.parse == old(c.processor.parse)
    ensures
      var left := if old(c.state) == GOT_MESSAGE then [] else old(c.recvBuffer[..c.recvPosition]);
      && c.delivered == old(c.delivered + c.Waiting()) + (if |left + m| <= MAX then [left + m] else [])
      && (c.delivered == old(c.delivered + c.Waiting()) + [m] <==> left == [])
  {
    hide Tidy, MessageProcessor.Valid, Replies, CString, MessageProcessor.Answer, RoutineOutput.Idle;
    ghost var left := if c.state == GOT_MESSAGE then [] else c.recvBuffer[..c.recvPosition];
    ghost var delivered := c.delivered + c.Waiting();
    c.OnReceive(EOT);
    var ok := c.Loop();
    assert c.recvBuffer[..c.recvPosition] == left;
    ok := c.Frame(m);
    if left == [] {
      assert left + m == m;
    } else if |left + m| <= MAX {
      assert c.delivered[|delivered|] == left + m != m;
    } else {
      assert |c.delivered| == |delivered|;
    }
  }

  /** For instance, a reset after one byte. */
  method ResetInMessage(c: SerialConnection)
    requires c.Ready() && c.recvPosition == 0
    modifies c.Parts()
    ensures c.delivered == old(c.delivered) + [[97, 98]]
  {
    hide Tidy, MessageProcessor.Valid;
    c.OnReceive(STX);
    c.OnReceive(97);
    assert c.recvBuffer[..1] == [97];
    AfterReset(c, [98]);
    assert [97] + [98] == [97, 98];
  }
}
