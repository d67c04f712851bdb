/** The serial port when bytes and turns of the loop come in any order (CSerialConnection.cpp): a machine that the
    connection follows, and exactly which messages of a stream of frames it takes. */
module SerialTiming {
  import opened Bytes
  import opened MessageProcessing
  import opened SerialFraming
  import opened Transmission

  datatype Input = Byte(b: byte) | LoopTurn

  datatype Machine = Machine(state: Reception, buffer: seq<byte>, resetting: bool, delivered: seq<seq<byte>>)

  function After(m: Machine, i: Input): Machine {
    match i
    case Byte(b) =>
      if m.resetting || b == EOT then m.(resetting := true)
      else if m.state == IDLE then (if b == STX then m.(state := RECV) else m)
      else if m.state != RECV then m
      else if |m.buffer| > MAX then m.(state := IDLE, buffer := [])
      else if b == ETX then m.(state := GOT_MESSAGE)
      else m.(buffer := m.buffer + [b])
    case LoopTurn =>
      var handled := if m.state == GOT_MESSAGE then Machine(IDLE, [], m.resetting, m.delivered + [m.buffer]) else m;
      if m.resetting then handled.(state := IDLE, resetting := false) else handled
  }

  function AfterAll(m: Machine, inputs: seq<Input>): Machine {
    if inputs == [] then m else After(AfterAll(m, inputs[..|inputs| - 1]), inputs[|inputs| - 1])
  }

  lemma {:induction false} AfterBoth(m: Machine, a: seq<Input>, b: seq<Input>)
    ensures AfterAll(m, a + b) == AfterAll(AfterAll(m, a), b)
    decreases |b|
  {
    if b == [] {
      assert a + b == a;
    } else {
      AfterBoth(m, a, b[..|b| - 1]);
      assert (a + b)[..|a + b| - 1] == a + b[..|b| - 1];
    }
  }

  lemma AfterOne(m: Machine, a: seq<Input>, i: Input)
    ensures AfterAll(m, a + [i]) == After(AfterAll(m, a), i)
  {
    assert (a + [i])[..|a|] == a;
  }

  ghost function MachineOf(c: SerialConnection): Machine
    requires c.recvPosition <= c.recvBuffer.Length
    reads c, c.recvBuffer
  {
    Machine(c.state, c.recvBuffer[..c.recvPosition], c.resetConnection, c.delivered)
  }

  /** Whatever bytes come in, and whenever the loop has its turn, the connection does what the machine does. */
  method RunInputs(c: SerialConnection, inputs: seq<Input>)
    requires c.Valid() && !c.processor.pendingMessage
    modifies c.Parts()
    ensures c.Valid() && !c.processor.pendingMessage
    ensures forall o | o in c.Parts() :: o in old(c.Parts()) || fresh(o)
    ensures c.recvPosition <= c.recvBuffer.Length && MachineOf(c) == AfterAll(old(MachineOf(c)), inputs)
    decreases |inputs|
  {
    hide SerialConnection.Valid, SerialConnection.Parts, After, MachineOf;
    BufferBound(c);
    if inputs != [] {
      RunInputs(c, inputs[..|inputs| - 1]);
      RunInput(c, inputs[|inputs| - 1]);
    }
  }

  method RunInput(c: SerialConnection, i: Input)
    requires c.Valid() && !c.processor.pendingMessage
    modifies c.Parts()
    ensures c.Valid() && !c.processor.pendingMessage
    ensures forall o | o in c.Parts() :: o in old(c.Parts()) || fresh(o)
    ensures c.recvPosition <= c.recvBuffer.Length && MachineOf(c) == After(old(MachineOf(c)), i)
  {
    hide MessageProcessor.Valid;
    match i {
      case Byte(b) =>
        c.OnReceive(b);
      case LoopTurn =>
        var ok := c.Loop();
    }
  }

  lemma BufferBound(c: SerialConnection)
    requires c.Valid()
    ensures c.recvPosition <= c.recvBuffer.Length
  {
  }

  //
  // Streams of frames
  //

  /** A frame, with a turn of the loop before some of its bytes after the first; or a turn between frames. */
  datatype Piece = Frame(m: seq<byte>, turns: seq<bool>) | Between

  predicate IsPiece(p: Piece) {
    p.Frame? ==> |p.turns| == |p.m| + 1 && Plain(p.m)
  }

  predicate ArePieces(ps: seq<Piece>) {
    forall i | 0 <= i < |ps| :: IsPiece(ps[i])
  }

  function TurnIf(turn: bool): seq<Input> {
    if turn then [LoopTurn] else []
  }

  /** What comes after the first byte of a frame and before the last. */
  function Inner(m: seq<byte>, turns: seq<bool>): seq<Input>
    requires |turns| == |m| + 1
  {
    if m == [] then TurnIf(turns[0])
    else
      var n := |m| - 1;
      Inner(m[..n], turns[..n + 1]) + [Byte(m[n])] + TurnIf(turns[n + 1])
  }

  function InputsOf(p: Piece): seq<Input>
    requires IsPiece(p)
  {
    match p
    case Frame(m, turns) => [Byte(STX)] + Inner(m, turns) + [Byte(ETX)]
    case Between => [LoopTurn]
  }

  function AllInputs(ps: seq<Piece>): seq<Input>
    requires ArePieces(ps)
  {
    if ps == [] then [] else InputsOf(ps[0]) + AllInputs(ps[1..])
  }

  /** The message of a piece, if there is one that is not too long. */
  function OwnOf(p: Piece): (r: seq<seq<byte>>)
    ensures |r| <= 1
  {
    if p.Frame? && |p.m| <= MAX then [p.m] else []
  }

  function MessagesIn(ps: seq<Piece>): seq<seq<byte>> {
    if ps == [] then [] else OwnOf(ps[0]) + MessagesIn(ps[1..])
  }

  /** No message that is not too long begins while another one waits for the loop. */
  predicate InTime(ps: seq<Piece>, waits: bool)
    decreases |ps|
  {
    ps != [] ==>
      match ps[0]
      case Between => InTime(ps[1..], false)
      case Frame(m, turns) =>
        if |m| <= MAX then !waits && InTime(ps[1..], true) else InTime(ps[1..], waits && true !in turns)
  }

  /** What a piece makes the loop deliver of what waits. */
  function Delivers(p: Piece, waiting: seq<seq<byte>>): seq<seq<byte>> {
    if p.Between? || true in p.turns then waiting else []
  }

  /** What waits after a piece. */
  function Leaves(p: Piece, waiting: seq<seq<byte>>): (r: seq<seq<byte>>)
    ensures |waiting| <= 1 ==> |r| <= 1
  {
    if p.Between? then []
    else if waiting == [] then OwnOf(p)
    else if true in p.turns then []
    else waiting
  }

  /** What a stream leaves, delivered or waiting. */
  function Taken(ps: seq<Piece>, waiting: seq<seq<byte>>): seq<seq<byte>>
    decreases |ps|
  {
    if ps == [] then waiting else Delivers(ps[0], waiting) + Taken(ps[1..], Leaves(ps[0], waiting))
  }

  /** Ready for a frame, or with a message that waits for the loop. */
  function Resting(delivered: seq<seq<byte>>, waiting: seq<seq<byte>>): Machine
    requires |waiting| <= 1
  {
    if waiting == [] then Machine(IDLE, [], false, delivered) else Machine(GOT_MESSAGE, waiting[0], false, delivered)
  }

  /** Single bytes and turns. */
  lemma Steps(b: byte, buffer: seq<byte>, d: seq<seq<byte>>)
    requires b != EOT
    ensures b != ETX ==>
              After(Machine(RECV, buffer, false, d), Byte(b)) ==
              if |buffer| > MAX then Machine(IDLE, [], false, d) else Machine(RECV, buffer + [b], false, d)
    ensures After(Machine(RECV, buffer, false, d), Byte(ETX)) ==
            if |buffer| > MAX then Machine(IDLE, [], false, d) else Machine(GOT_MESSAGE, buffer, false, d)
    ensures b != STX ==> After(Machine(IDLE, [], false, d), Byte(b)) == Machine(IDLE, [], false, d)
    ensures After(Machine(IDLE, [], false, d), Byte(STX)) == Machine(RECV, [], false, d)
    ensures After(Machine(GOT_MESSAGE, buffer, false, d), Byte(b)) == Machine(GOT_MESSAGE, buffer, false, d)
    ensures After(Machine(RECV, buffer, false, d), LoopTurn) == Machine(RECV, buffer, false, d)
    ensures After(Machine(IDLE, [], false, d), LoopTurn) == Machine(IDLE, [], false, d)
    ensures After(Machine(GOT_MESSAGE, buffer, false, d), LoopTurn) == Machine(IDLE, [], false, d + [buffer])
  {
  }

  lemma AfterNothing(m: Machine)
    ensures AfterAll(m, []) == m
  {
  }

  lemma {:induction false} InnerReceived(m: seq<byte>, turns: seq<bool>, d: seq<seq<byte>>)
    requires |turns| == |m| + 1 && Plain(m)
    ensures AfterAll(Machine(RECV, [], false, d), Inner(m, turns)) ==
            if |m| <= MAX + 1 then Machine(RECV, m, false, d) else Machine(IDLE, [], false, d)
  {
    hide After, AfterAll;
    var start := Machine(RECV, [], false, d);
    if m == [] {
      TurnTaken(start, turns[0]);
      Steps(0, [], d);
    } else {
      var n := |m| - 1;
      Steps(m[n], m[..n], d);
      Steps(m[n], m, d);
      InnerReceived(m[..n], turns[..n + 1], d);
      var before := Inner(m[..n], turns[..n + 1]);
      AfterOne(start, before, Byte(m[n]));
      AfterBoth(start, before + [Byte(m[n])], TurnIf(turns[n + 1]));
      TurnTaken(AfterAll(start, before + [Byte(m[n])]), turns[n + 1]);
      assert m[..n] + [m[n]] == m;
    }
  }

  lemma {:induction false} InnerIgnored(m: seq<byte>, turns: seq<bool>, w: seq<byte>, d: seq<seq<byte>>)
    requires |turns| == |m| + 1 && Plain(m)
    ensures AfterAll(Machine(GOT_MESSAGE, w, false, d), Inner(m, turns)) ==
            if true in turns then Machine(IDLE, [], false, d + [w]) else Machine(GOT_MESSAGE, w, false, d)
  {
    hide After, AfterAll;
    var start := Machine(GOT_MESSAGE, w, false, d);
    Steps(0, w, d);
    Steps(0, w, d + [w]);
    if m == [] {
      TurnTaken(start, turns[0]);
      assert turns == [turns[0]];
    } else {
      var n := |m| - 1;
      Steps(m[n], w, d);
      Steps(m[n], w, d + [w]);
      InnerIgnored(m[..n], turns[..n + 1], w, d);
      var before := Inner(m[..n], turns[..n + 1]);
      AfterOne(start, before, Byte(m[n]));
      AfterBoth(start, before + [Byte(m[n])], TurnIf(turns[n + 1]));
      TurnTaken(AfterAll(start, before + [Byte(m[n])]), turns[n + 1]);
      assert turns == turns[..n + 1] + [turns[n + 1]];
    }
  }

  lemma TurnTaken(m: Machine, turn: bool)
    ensures AfterAll(m, TurnIf(turn)) == if turn then After(m, LoopTurn) else m
  {
    hide After;
    AfterNothing(m);
    AfterOne(m, [], LoopTurn);
    assert [] + [LoopTurn] == [LoopTurn];
  }

  lemma FrameTaken(p: Piece, d: seq<seq<byte>>, waiting: seq<seq<byte>>)
    requires IsPiece(p) && p.Frame? && |waiting| <= 1
    ensures AfterAll(Resting(d, waiting), InputsOf(p)) ==
            if waiting == [] then Resting(d, if |p.m| <= MAX then [p.m] else [])
            else if true in p.turns then Resting(d + waiting, [])
            else Resting(d, waiting)
  {
    hide After, AfterAll, Inner;
    var start, inner := Resting(d, waiting), Inner(p.m, p.turns);
    AfterNothing(start);
    Steps(STX, p.m, d);
    Steps(ETX, p.m, d);
    if waiting != [] {
      Steps(STX, waiting[0], d);
      Steps(ETX, waiting[0], d);
      Steps(ETX, waiting[0], d + [waiting[0]]);
    }
    AfterOne(start, [], Byte(STX));
    assert [] + [Byte(STX)] == [Byte(STX)];
    AfterBoth(start, [Byte(STX)], inner);
    AfterOne(start, [Byte(STX)] + inner, Byte(ETX));
    if waiting == [] {
      InnerReceived(p.m, p.turns, d);
    } else {
      InnerIgnored(p.m, p.turns, waiting[0], d);
      assert waiting == [waiting[0]];
    }
  }

  lemma {:induction false} StreamTaken(ps: seq<Piece>, d: seq<seq<byte>>, waiting: seq<seq<byte>>)
    requires ArePieces(ps) && |waiting| <= 1
    ensures
      var r := AfterAll(Resting(d, waiting), AllInputs(ps));
      r.delivered + (if r.state == GOT_MESSAGE then [r.buffer] else []) == d + Taken(ps, waiting)
    decreases |ps|
  {
    hide IsPiece, After, AfterAll, InputsOf, Delivers, Leaves;
    if ps == [] {
      AfterNothing(Resting(d, waiting));
      assert waiting == [] || waiting == [waiting[0]];
    } else {
      hide Resting;
      AfterBoth(Resting(d, waiting), InputsOf(ps[0]), AllInputs(ps[1..]));
      PieceTaken(ps[0], d, waiting);
      StreamTaken(ps[1..], d + Delivers(ps[0], waiting), Leaves(ps[0], waiting));
    }
  }

  lemma PieceTaken(p: Piece, d: seq<seq<byte>>, waiting: seq<seq<byte>>)
    requires IsPiece(p) && |waiting| <= 1
    ensures |Leaves(p, waiting)| <= 1
    ensures AfterAll(Resting(d, waiting), InputsOf(p)) == Resting(d + Delivers(p, waiting), Leaves(p, waiting))
  {
    hide After, AfterAll, Inner;
    match p
    case Between => BetweenTaken(d, waiting);
    case Frame(m, turns) =>
      FrameTaken(p, d, waiting);
      assert d + [] == d;
  }

  lemma BetweenTaken(d: seq<seq<byte>>, waiting: seq<seq<byte>>)
    requires |waiting| <= 1
    ensures AfterAll(Resting(d, waiting), InputsOf(Between)) == Resting(d + waiting, [])
  {
    TurnTaken(Resting(d, waiting), true);
    assert d + waiting == if waiting == [] then d else d + [waiting[0]];
  }

  lemma {:induction false} TakenIfInTime(ps: seq<Piece>, waiting: seq<seq<byte>>)
    requires |waiting| <= 1
    ensures |Taken(ps, waiting)| <= |waiting + MessagesIn(ps)|
    ensures Taken(ps, waiting) == waiting + MessagesIn(ps) <==> InTime(ps, waiting != [])
    decreases |ps|
  {
    hide Taken, MessagesIn, InTime, Delivers, Leaves, OwnOf;
    if ps == [] {
      NothingTaken(waiting);
    } else {
      var p, rest := ps[0], ps[1..];
      PieceCases(p, waiting);
      TakenIfInTime(rest, Leaves(p, waiting));
      InTimeNext(ps, waiting != []);
      TakenNext(ps, waiting);
      if p.Between? || (waiting != [] && true in p.turns) {
        Later(waiting, Taken(rest, []), OwnOf(p), MessagesIn(rest));
      } else if waiting == [] {
        assert [] + MessagesIn(ps) == MessagesIn(ps) && [] + Taken(rest, OwnOf(p)) == Taken(rest, OwnOf(p));
      } else {
        Never(waiting, Taken(rest, waiting), OwnOf(p), MessagesIn(rest));
      }
    }
  }

  lemma NothingTaken(waiting: seq<seq<byte>>)
    ensures Taken([], waiting) == waiting == waiting + MessagesIn([])
    ensures InTime([], waiting != [])
  {
  }

  lemma PieceCases(p: Piece, waiting: seq<seq<byte>>)
    ensures if p.Between? || (waiting != [] && true in p.turns) then
              Leaves(p, waiting) == [] && Delivers(p, waiting) == waiting
            else Delivers(p, waiting) == [] && Leaves(p, waiting) == if waiting == [] then OwnOf(p) else waiting
    ensures p.Between? ==> OwnOf(p) == []
  {
  }

  lemma TakenNext(ps: seq<Piece>, waiting: seq<seq<byte>>)
    requires ps != []
    ensures Taken(ps, waiting) == Delivers(ps[0], waiting) + Taken(ps[1..], Leaves(ps[0], waiting))
    ensures MessagesIn(ps) == OwnOf(ps[0]) + MessagesIn(ps[1..])
  {
  }

  lemma InTimeNext(ps: seq<Piece>, waits: bool)
    requires ps != []
    ensures InTime(ps, waits) ==
            if ps[0].Between? then InTime(ps[1..], false)
            else if OwnOf(ps[0]) != [] then !waits && InTime(ps[1..], true)
            else InTime(ps[1..], waits && true !in ps[0].turns)
  {
  }

  /** What waits is delivered, and a message of its own is lost. */
  lemma Later(w: seq<seq<byte>>, t: seq<seq<byte>>, own: seq<seq<byte>>, m: seq<seq<byte>>)
    requires |t| <= |m| && |[] + m| == |m|
    ensures |w + t| <= |w + (own + m)|
    ensures w + t == w + (own + m) <==> own == [] && t == [] + m
  {
    assert (w + t)[|w|..] == t && (w + (own + m))[|w|..] == own + m;
  }

  /** What waits goes on waiting, and a message of its own is lost. */
  lemma Never(w: seq<seq<byte>>, t: seq<seq<byte>>, own: seq<seq<byte>>, m: seq<seq<byte>>)
    requires |t| <= |w + m|
    ensures |[] + t| <= |w + (own + m)|
    ensures [] + t == w + (own + m) <==> own == [] && t == w + m
  {
    assert [] + t == t;
    if own == [] {
      assert own + m == m;
    }
  }

  lemma SameRest(w: seq<seq<byte>>, a: seq<seq<byte>>, b: seq<seq<byte>>)
    ensures w + a == w + b <==> a == b
    ensures [] + b == b
  {
    assert (w + a)[|w|..] == a && (w + b)[|w|..] == b;
  }

  /** Of a stream of frames, with turns of the loop anywhere, all messages that are not too long are taken just when
      none of them begins while another one waits for the loop. Otherwise fewer are. */
  method RunStream(c: SerialConnection, ps: seq<Piece>)
    requires c.Ready() && c.recvPosition == 0 && ArePieces(ps)
    modifies c.Parts()
    ensures c.Valid() && !c.processor.pendingMessage
    ensures c.delivered + c.Waiting() == old(c.delivered) + Taken(ps, [])
    ensures c.delivered + c.Waiting() == old(c.delivered) + MessagesIn(ps) <==> InTime(ps, false)
  {
    hide SerialConnection.Valid, After, ArePieces, InTime, Taken, MessagesIn;
    IsReady(c);
    assert c.recvBuffer[..0] == [];
    ghost var d := c.delivered;
    StreamTaken(ps, d, []);
    TakenIfInTime(ps, []);
    SameRest(d, Taken(ps, []), MessagesIn(ps));
    RunInputs(c, AllInputs(ps));
  }

  lemma IsReady(c: SerialConnection)
    requires c.Ready()
    ensures c.Valid() && c.state == IDLE && !c.resetConnection && !c.processor.pendingMessage
  {
  }

  /** For instance, two frames without a turn between them. */
  lemma SecondLost(a: seq<byte>, b: seq<byte>)
    requires |a| <= MAX && |b| <= MAX && Plain(a) && Plain(b)
    ensures
      var ps := [Frame(a, seq(|a| + 1, _ => false)), Frame(b, seq(|b| + 1, _ => false))];
      ArePieces(ps) && Taken(ps, []) == [a] && MessagesIn(ps) == [a, b]
  {
    var ps := [Frame(a, seq(|a| + 1, _ => false)), Frame(b, seq(|b| + 1, _ => false))];
    assert ps[1..] == [ps[1]] && ps[1..][1..] == [];
    assert Taken([ps[1]], [a]) == [a];
    assert MessagesIn(ps[1..]) == [b];
  }
}
