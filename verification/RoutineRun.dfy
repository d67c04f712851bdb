/** Running a routine for a remote client (CRoutineRun.cpp), as far as the other core is told about it. */
module RoutineRunning {
  import opened Options
  import opened Protocol
  import Transmission

  const CHANNELS := 4

  datatype Request = MinMaxChange(menu: nat, value: nat) | MultiChoiceChange(menu: nat, choice: nat)
                   | SoftButton(pressed: bool)

  /** What the other core is asked to do. */
  class RoutineOutput {
    var active: Option<nat>
    var remotePower: seq<nat>
    var requests: seq<Request>

    predicate Valid()
      reads this
    {
      |remotePower| == CHANNELS
    }

    /** No routine runs, and no channel has power. */
    predicate Idle()
      reads this
    {
      active == None && remotePower == [0, 0, 0, 0]
    }

    constructor ()
      ensures Valid() && Idle() && requests == []
    {
      active, remotePower, requests := None, [0, 0, 0, 0], [];
    }

    method SetRemotePower(channel: nat, power: int)
      requires Valid() && channel < CHANNELS
      modifies this`remotePower
      ensures Valid() && remotePower == old(remotePower)[channel := power % 0x1_0000]
    {
      remotePower := remotePower[channel := power % 0x1_0000];
    }
  }

  /** The messages that a running routine understands. */
  predicate ForRoutine(m: Message) {
    || m.PatternStart? || m.PatternMinMaxChange? || m.PatternMultiChoiceChange? || m.PatternSoftButton?
    || m.SetPower? || m.PatternStop?
  }

  function PowerOf(m: Message): seq<int>
    requires m.SetPower?
  {
    [m.chan1, m.chan2, m.chan3, m.chan4]
  }

  function Narrowed(power: seq<int>): seq<nat> {
    seq(|power|, i requires 0 <= i < |power| => power[i] % 0x1_0000)
  }

  lemma NarrowedFour(a: int, b: int, c: int, d: int)
    ensures Narrowed([a, b, c, d]) == [a % 0x1_0000, b % 0x1_0000, c % 0x1_0000, d % 0x1_0000]
  {
  }

  /** What the other core is asked when a message comes in. */
  function Asked(m: Message): seq<Request> {
    match m
    case PatternMinMaxChange(menu, value) => [MinMaxChange(menu % 256, value % 0x1_0000)]
    case PatternMultiChoiceChange(menu, choice) => [MultiChoiceChange(menu % 256, choice % 256)]
    case PatternSoftButton(pressed) => [SoftButton(pressed != 0)]
    case _ => []
  }

  class RoutineRun {
    const output: RoutineOutput
    const outbox: Outbox
    var running: bool

    constructor (output: RoutineOutput, outbox: Outbox)
      ensures this.output == output && this.outbox == outbox && !running
    {
      this.output, this.outbox, running := output, outbox, false;
    }

    /** process: each branch sends its own answer; a start is followed by the power levels, which nobody asked for.
        An unknown pattern ends it, as does a stop; an unexpected message does not. */
    method Process(d: Document, routines: nat) returns (finished: bool, ok: bool)
      requires output.Valid()
      modifies this, output, outbox
      ensures output.Valid()
      ensures Replies(outbox.history.sent) == Replies(old(outbox.history.sent)) + [Sent(Ack, d.id, ok)]
      ensures ok == (ForRoutine(d.message) && (d.message.PatternStart? ==> 0 <= d.message.index < routines))
      ensures ok <==>
              || (d.message.PatternStart? && 0 <= d.message.index < routines)
              || d.message.PatternMinMaxChange? || d.message.PatternMultiChoiceChange? || d.message.PatternSoftButton?
              || d.message.SetPower? || d.message.PatternStop?
      ensures finished == (d.message.PatternStop? || (d.message.PatternStart? && !ok))
      ensures output.active == if d.message.PatternStart? && ok then Some(d.message.index % 256) else old(output.active)
      ensures output.remotePower ==
              if d.message.SetPower? then Narrowed(PowerOf(d.message)) else old(output.remotePower)
      ensures output.requests == old(output.requests) + Asked(d.message)
      ensures d.message.SetPower? ==>
                output.remotePower == [d.message.chan1 % 0x1_0000, d.message.chan2 % 0x1_0000,
                                       d.message.chan3 % 0x1_0000, d.message.chan4 % 0x1_0000]
      ensures d.message.PatternMinMaxChange? ==>
                output.requests ==
                old(output.requests) + [MinMaxChange(d.message.menuId % 256, d.message.newValue % 0x1_0000)]
      ensures d.message.PatternMultiChoiceChange? ==>
                output.requests ==
                old(output.requests) + [MultiChoiceChange(d.message.menuId % 256, d.message.choiceId % 256)]
      ensures d.message.PatternSoftButton? ==>
                output.requests == old(output.requests) + [SoftButton(d.message.pressed != 0)]
      ensures !d.message.PatternMinMaxChange? && !d.message.PatternMultiChoiceChange? &&
              !d.message.PatternSoftButton? ==>
                output.requests == old(output.requests)
      ensures running == if d.message.PatternStop? then false else (old(running) || (d.message.PatternStart? && ok))
    {
      hide Transmission.Tidy, Replies, Narrowed;
      var patternStart := false;
      match d.message {
        case PatternStart(index) =>
          if index < 0 || index >= routines {
            outbox.SendAck(false, d.id);
            return true, false;
          }
          output.active := Some(index % 256);
          patternStart := true;
          running := true;
        case PatternMinMaxChange(menu, value) =>
          output.requests := output.requests + [MinMaxChange(menu % 256, value % 0x1_0000)];
        case PatternMultiChoiceChange(menu, choice) =>
          output.requests := output.requests + [MultiChoiceChange(menu % 256, choice % 256)];
        case PatternSoftButton(pressed) =>
          output.requests := output.requests + [SoftButton(pressed != 0)];
        case SetPower(chan1, chan2, chan3, chan4) =>
          SetPowers([chan1, chan2, chan3, chan4]);
          NarrowedFour(chan1, chan2, chan3, chan4);
        case PatternStop =>
          outbox.SendAck(true, d.id);
          running := false;
          return true, true;
        case _ =>
          outbox.SendAck(false, d.id);
          return false, false;
      }
      outbox.SendAck(true, d.id);
      if patternStart {
        outbox.Send(PowerStatus, -1, true);
      }
      return false, true;
    }

    method SetPowers(channelPower: seq<int>)
      requires output.Valid() && |channelPower| == CHANNELS
      modifies output`remotePower
      ensures output.Valid() && output.remotePower == Narrowed(channelPower)
    {
      for channel := 0 to CHANNELS
        invariant output.Valid() && forall c | 0 <= c < channel :: output.remotePower[c] == Narrowed(channelPower)[c]
      {
        output.SetRemotePower(channel, channelPower[channel]);
      }
    }

    /** loop: power levels that have changed and a script that has failed are reported. */
    method Loop(powerChanged: bool, scriptFailed: bool)
      modifies outbox
      ensures Replies(outbox.history.sent) == Replies(old(outbox.history.sent))
      ensures old(outbox.history.sent) <= outbox.history.sent
    {
      if powerChanged {
        outbox.Send(PowerStatus, -1, true);
      }
      if scriptFailed {
        outbox.Send(LuaScriptError, -1, false);
      }
    }

    /** The destructor: whatever runs is stopped, and all power is taken away. */
    method Destroy()
      requires output.Valid()
      modifies output
      ensures output.Valid() && output.Idle() && output.requests == old(output.requests)
    {
      output.active := None;
      for channel := 0 to CHANNELS
        invariant output.Valid() && output.active == None && output.requests == old(output.requests)
        invariant forall c | 0 <= c < channel :: output.remotePower[c] == 0
      {
        output.SetRemotePower(channel, 0);
      }
    }
  }
}
