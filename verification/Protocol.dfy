/** Messages between a client and the box, once they are parsed, and what is sent in return (CMessageProcessor.cpp). */
module Protocol {
  import opened Bytes
  import opened Sequences
  import opened Transmission

  datatype Message =
    | LuaStart(index: int)
    | LuaLine(text: seq<byte>)
    | LuaEnd
    | PatternStart(index: int)
    | PatternMinMaxChange(menuId: int, newValue: int)
    | PatternMultiChoiceChange(menuId: int, choiceId: int)
    | PatternSoftButton(pressed: int)
    | SetPower(chan1: int, chan2: int, chan3: int, chan4: int)
    | PatternStop
    | GetLuaScripts
    | DeleteLuaScript(index: int)
    | GetPatterns
    | GetPatternDetail(patternId: int)
    | GetVersion
    | Unknown

  datatype Document = Document(id: int, message: Message)

  /** Power levels and script errors are sent unasked; the other kinds answer a message. */
  datatype Kind = Ack | LuaScripts | PatternList | PatternDetail | VersionDetails | PowerStatus | LuaScriptError

  datatype Sent = Sent(kind: Kind, id: int, ok: bool)

  predicate IsReply(s: Sent) {
    !s.kind.PowerStatus? && !s.kind.LuaScriptError?
  }

  /** The answers among what was sent. */
  function Replies(sent: seq<Sent>): seq<Sent> {
    if sent == [] then []
    else Replies(sent[..|sent| - 1]) + if IsReply(sent[|sent| - 1]) then [sent[|sent| - 1]] else []
  }

  lemma RepliesNext(sent: seq<Sent>, s: Sent)
    ensures Replies(sent + [s]) == Replies(sent) + if IsReply(s) then [s] else []
  {
    assert (sent + [s])[..|sent|] == sent;
  }

  /** What was handed to send, and what became of it on the serial line. */
  datatype History = History(sent: seq<Sent>, line: SerialLine)

  type Sending = h: History | |h.sent| == |h.line.offers| witness History([], Line([], [], []))

  /** What went out, or waits in the transmit queue. */
  function Gone(h: Sending): seq<Sent> {
    GoneOf(h.sent, h.line.offers)
  }

  function GoneOf(sent: seq<Sent>, offers: seq<Offer>): seq<Sent>
    requires |sent| == |offers|
  {
    if sent == [] then []
    else
      var n := |sent| - 1;
      GoneOf(sent[..n], offers[..n]) + if Fits(offers[n]) then [sent[n]] else []
  }

  /** Every answer found room in the transmit queue. */
  predicate AnswersFit(h: Sending) {
    forall i | 0 <= i < |h.sent| && IsReply(h.sent[i]) :: Fits(h.line.offers[i])
  }

  /** All answers go out just when every one was no longer than the free space that it found; and otherwise fewer, but
      none in part, and none out of order. */
  lemma AllAnswersGone(h: Sending)
    ensures Replies(Gone(h)) == Replies(h.sent) <==> AnswersFit(h)
    ensures |Replies(Gone(h))| <= |Replies(h.sent)| && (|Replies(Gone(h))| == |Replies(h.sent)| <==> AnswersFit(h))
    ensures h.line.wire + h.line.queue == Flat(Frames(h.line.offers))
  {
    GoneAnswers(h.sent, h.line.offers);
  }

  lemma {:induction false} GoneAnswers(sent: seq<Sent>, offers: seq<Offer>)
    requires |sent| == |offers|
    ensures |Replies(GoneOf(sent, offers))| <= |Replies(sent)|
    ensures |Replies(GoneOf(sent, offers))| == |Replies(sent)| <==>
            forall i | 0 <= i < |sent| && IsReply(sent[i]) :: Fits(offers[i])
    ensures Replies(GoneOf(sent, offers)) == Replies(sent) <==>
            forall i | 0 <= i < |sent| && IsReply(sent[i]) :: Fits(offers[i])
  {
    if sent != [] {
      var n := |sent| - 1;
      GoneAnswers(sent[..n], offers[..n]);
      var before := GoneOf(sent[..n], offers[..n]);
      RepliesNext(before, sent[n]);
      assert before + [] == before;
      assert Replies(sent) == Replies(sent[..n]) + if IsReply(sent[n]) then [sent[n]] else [];
      assert Replies(before) + [] == Replies(before) && Replies(sent[..n]) + [] == Replies(sent[..n]);
      SameBefore(Replies(before), Replies(sent[..n]), sent[n]);
      assert (forall i | 0 <= i < |sent| && IsReply(sent[i]) :: Fits(offers[i])) <==>
             (forall i | 0 <= i < n && IsReply(sent[..n][i]) :: Fits(offers[..n][i])) &&
             (IsReply(sent[n]) ==> Fits(offers[n]));
    }
  }

  lemma SameBefore(a: seq<Sent>, b: seq<Sent>, s: Sent)
    ensures a + [s] == b + [s] <==> a == b
  {
    assert (a + [s])[..|a|] == a && (b + [s])[..|b|] == b;
  }

  /** The send function that is handed to everyone who answers. */
  class Outbox {
    var history: Sending

    constructor ()
      ensures history.sent == [] && history.line.wire + history.line.queue == []
    {
      history := History([], Line([], [], []));
    }

    /** What the text is, nothing is said about. */
    method Send(kind: Kind, id: int, ok: bool)
      modifies this
      ensures history.sent == old(history.sent) + [Sent(kind, id, ok)]
      ensures Replies(history.sent) ==
              Replies(old(history.sent)) + if IsReply(Sent(kind, id, ok)) then [Sent(kind, id, ok)] else []
    {
      var text: seq<byte> := *;
      SendText(Sent(kind, id, ok), text);
    }

    method SendText(s: Sent, text: seq<byte>)
      modifies this
      ensures history.sent == old(history.sent) + [s]
      ensures Replies(history.sent) == Replies(old(history.sent)) + if IsReply(s) then [s] else []
      ensures Gone(history) == Gone(old(history)) + if Fits(history.line.offers[|old(history.sent)|]) then [s] else []
      ensures exists space :: TX_QUEUE_SIZE - |old(history.line.queue)| <= space <= TX_QUEUE_SIZE &&
                              history.line.offers == old(history.line.offers) + [Offer(text, space)]
    {
      RepliesNext(history.sent, s);
      var line := Transmission.Send(history.line, text);
      GoneNext(history, s, line);
      history := History(history.sent + [s], line);
    }

    /** The interrupt handler runs. */
    method Interrupt()
      modifies this
      ensures history.sent == old(history.sent) && history.line.offers == old(history.line.offers)
    {
      var line := Transmit(history.line);
      history := history.(line := line);
    }

    /** Everything goes out. */
    method FlushQueue()
      modifies this
      ensures history.sent == old(history.sent) && history.line.offers == old(history.line.offers)
      ensures history.line.queue == []
    {
      var line := Flush(history.line);
      history := history.(line := line);
    }

    method SendAck(ok: bool, id: int)
      modifies this
      ensures history.sent == old(history.sent) + [Sent(Ack, id, ok)]
      ensures Replies(history.sent) == Replies(old(history.sent)) + [Sent(Ack, id, ok)]
    {
      Send(Ack, id, ok);
    }

    /** For instance, the details of a pattern in 2001 bytes: although nothing else waits they are not sent. */
    method AnswerLost(text: seq<byte>)
      requires history.line.queue == [] && |text| == TX_QUEUE_SIZE + 1 && AnswersFit(history)
      modifies this
      ensures Replies(history.sent) == Replies(old(history.sent)) + [Sent(PatternDetail, 1, true)]
      ensures Replies(Gone(history)) == Replies(old(history.sent))
      ensures Gone(history) == Gone(old(history))
    {
      AllAnswersGone(history);
      SendText(Sent(PatternDetail, 1, true), text);
      assert Gone(history) == Gone(old(history)) + [] == Gone(old(history));
    }
  }

  lemma GoneNext(h: Sending, s: Sent, line: SerialLine)
    requires |line.offers| == |h.sent| + 1 && line.offers[..|h.sent|] == h.line.offers
    ensures Gone(History(h.sent + [s], line)) == Gone(h) + if Fits(line.offers[|h.sent|]) then [s] else []
  {
    assert (h.sent + [s])[..|h.sent|] == h.sent;
  }
}
