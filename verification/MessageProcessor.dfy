/** The message processor (CMessageProcessor.cpp): one message waits at a time, and is handled in the state that it
    finds, by the loader of scripts, by the routine that runs, or by the processor itself. */
module MessageProcessing {
  import opened Bytes
  import opened Options
  import opened Protocol
  import Transmission
  import opened LuaUpload
  import opened RoutineRunning

  const MAX := 300

  datatype State = ACTIVE | LUA_LOAD | ROUTINE_RUN

  /** The state that a message is handled in. */
  function StateFor(s: State, m: Message): State {
    if m.LuaStart? then LUA_LOAD else if m.PatternStart? then ROUTINE_RUN else s
  }

  /** The state after a message that is handled in this state, and answered so. */
  function NextState(s: State, m: Message, ok: bool): State {
    match s
    case ACTIVE => ACTIVE
    case LUA_LOAD => if ok && !m.LuaEnd? then LUA_LOAD else ACTIVE
    case ROUTINE_RUN => if m.PatternStop? || (m.PatternStart? && !ok) then ACTIVE else ROUTINE_RUN
  }

  /** What kind of answer a message gets in this state. */
  function AnswerKind(s: State, m: Message): Kind {
    if s != ACTIVE then Ack
    else
      match m
      case GetLuaScripts => LuaScripts
      case GetPatterns => PatternList
      case GetPatternDetail(_) => PatternDetail
      case GetVersion => VersionDetails
      case _ => Ack
  }

  /** The list of routines, as far as this matters here: how many there are, with the scripts in these slots. */
  datatype Catalogue = Catalogue(count: seq<seq<byte>> -> nat)

  class MessageProcessor {
    const storage: Storage
    const output: RoutineOutput
    const outbox: Outbox
    const catalogue: Catalogue
    const parse: seq<byte> -> Option<Document>
    const pendingBuffer: array<byte>
    var routines: nat
    var state: State
    var luaLoad: LuaLoad?
    var routineRun: RoutineRun?
    var pendingMessage: bool
    ghost var pendingText: seq<byte>
    ghost var handled: seq<seq<byte>>

    ghost function Owned(): set<object>
      reads this
    {
      {this, pendingBuffer} + (if luaLoad == null then {} else {luaLoad, luaLoad.buffer})
      + if routineRun == null then {} else {routineRun}
    }

    ghost function Parts(): set<object>
      reads this
    {
      Owned() + {storage, output}
    }

    /** The loader exists exactly while a script is uploaded, and the runner exactly while a routine may run;
        without it nothing runs. */
    ghost predicate Owning()
      reads this, Parts()
    {
      && storage.Valid() && output.Valid()
      && (luaLoad != null <==> state == LUA_LOAD) && (routineRun != null <==> state == ROUTINE_RUN)
      && (routineRun != null ==> routineRun.output == output && routineRun.outbox == outbox)
      && (routineRun == null ==> output.Idle())
      && (luaLoad != null ==> luaLoad.buffer != pendingBuffer)
    }

    ghost predicate LoaderValid()
      requires luaLoad != null
      reads this, Parts()
    {
      luaLoad.storage == storage && luaLoad.outbox == outbox && luaLoad.Valid()
    }

    /** The buffer holds the pending message and zeros behind it, and zeros only if there is none. */
    ghost predicate ValidBuffer()
      reads this, pendingBuffer
    {
      && pendingBuffer.Length == MAX + 1 && |pendingText| <= MAX && (!pendingMessage ==> pendingText == [])
      && pendingBuffer[..] == pendingText + seq(MAX + 1 - |pendingText|, _ => 0)
    }

    ghost predicate Valid()
      reads this, Parts()
    {
      Owning() && ValidBuffer() && (luaLoad != null ==> LoaderValid())
    }

    constructor (storage: Storage, output: RoutineOutput, outbox: Outbox, catalogue: Catalogue,
                 parse: seq<byte> -> Option<Document>, routines: nat)
      requires storage.Valid() && output.Valid() && output.Idle()
      ensures Valid() && state == ACTIVE && !pendingMessage && handled == [] && fresh(Owned())
      ensures this.storage == storage && this.output == output && this.outbox == outbox
      ensures this.catalogue == catalogue && this.parse == parse && this.routines == routines
    {
      this.storage, this.output, this.outbox := storage, output, outbox;
      this.catalogue, this.parse, this.routines := catalogue, parse, routines;
      pendingBuffer := new byte[MAX + 1](_ => 0);
      state, luaLoad, routineRun, pendingMessage, pendingText, handled := ACTIVE, null, null, false, [], [];
    }

    /** The destructor; a routine that runs is stopped. */
    method Destroy()
      requires Valid()
      modifies this`luaLoad, this`routineRun, output
      ensures output.Valid() && output.Idle() && storage.Valid()
    {
      luaLoad := null;
      if routineRun != null {
        routineRun.Destroy();
        routineRun := null;
      }
    }

    /** message: taken in if it is not too long and nothing else is pending; otherwise answered with an error at once,
        with its own number only if it can be read. */
    method TakeMessage(data: seq<byte>)
      requires Valid()
      modifies this`pendingMessage, this`pendingText, pendingBuffer, outbox
      ensures Valid()
      ensures if |data| > MAX || old(pendingMessage) then
                && pendingMessage == old(pendingMessage) && pendingText == old(pendingText)
                && Replies(outbox.history.sent) == Replies(old(outbox.history.sent)) + [Refusal(data)]
              else pendingMessage && pendingText == data && outbox.history.sent == old(outbox.history.sent)
      ensures |data| > 300 || old(pendingMessage) ==>
                var known := |data| <= 300 && parse(CString(data)).Some?;
                Replies(outbox.history.sent) ==
                Replies(old(outbox.history.sent)) +
                [Sent(Ack, if known then parse(CString(data)).value.id else -1, false)]
    {
      hide Transmission.Tidy, Replies, Storage.Valid, LuaLoad.Valid;
      if |data| > MAX {
        outbox.SendAck(false, -1);
        return;
      }
      if pendingMessage {
        match parse(CString(data)) {
          case None => outbox.SendAck(false, -1);
          case Some(doc) => outbox.SendAck(false, doc.id);
        }
        return;
      }
      forall i | 0 <= i < |data| {
        pendingBuffer[i] := data[i];
      }
      pendingBuffer[MAX] := 0;
      pendingMessage := true;
      pendingText := data;
    }

    function Refusal(data: seq<byte>): Sent {
      Sent(Ack, IdOf(data), false)
    }

    /** The number of a message, or -1 if it cannot be read. */
    function IdOf(data: seq<byte>): int {
      if |data| > MAX || parse(CString(data)).None? then -1 else parse(CString(data)).value.id
    }

    /** set_state: creates what the new state needs, and then deletes what the old one leaves behind. */
    method SetState(newState: State)
      requires Owning() && ValidBuffer() && (luaLoad != null && newState == LUA_LOAD ==> LoaderValid())
      modifies this`routines, this`state, this`luaLoad, this`routineRun, output
      ensures Valid() && state == newState && fresh(Owned() - old(Owned()))
      ensures old(state) == newState ==> luaLoad == old(luaLoad) && routineRun == old(routineRun)
      ensures output.requests == old(output.requests)
      ensures routines ==
              if old(state) == LUA_LOAD && newState != LUA_LOAD then catalogue.count(storage.slots) else old(routines)
      ensures newState == ROUTINE_RUN || old(state) != ROUTINE_RUN ==> unchanged(output)
    {
      hide Transmission.Tidy, Storage.Valid;
      if state == newState {
        return;
      }
      match newState {
        case ACTIVE =>
        case LUA_LOAD =>
          if luaLoad == null {
            luaLoad := new LuaLoad(storage, outbox);
          }
        case ROUTINE_RUN =>
          if routineRun == null {
            routineRun := new RoutineRun(output, outbox);
          }
      }
      if state == LUA_LOAD && newState != LUA_LOAD && luaLoad != null {
        ReloadRoutines();
        luaLoad := null;
      }
      if state == ROUTINE_RUN && newState != ROUTINE_RUN && routineRun != null {
        routineRun.Destroy();
        routineRun := null;
      }
      state := newState;
    }

    /** reload_routines: scripts may have come or gone. */
    method ReloadRoutines()
      modifies this`routines
      ensures routines == catalogue.count(storage.slots)
    {
      routines := catalogue.count(storage.slots);
    }

    /** Which slot a message may change. */
    ghost function Concerned(m: Message): int
      requires state == LUA_LOAD ==> luaLoad != null
      reads this, luaLoad
    {
      match StateFor(state, m)
      case ACTIVE => if m.DeleteLuaScript? then m.index % 256 else -1
      case LUA_LOAD => if m.LuaStart? then -1 else luaLoad.index
      case ROUTINE_RUN => -1
    }

    /** A message reaches the loader: it is answered once. */
    method LoaderMessage(d: Document, behind: seq<byte>) returns (ok: bool)
      requires Valid() && state == LUA_LOAD
      modifies this`routines, this`state, this`luaLoad, this`routineRun, luaLoad, luaLoad.buffer, storage, output,
               outbox
      ensures Valid() && state == NextState(LUA_LOAD, d.message, ok) && unchanged(output)
      ensures if ok && !d.message.LuaEnd? then state == LUA_LOAD else state == ACTIVE && luaLoad == null
      ensures fresh(Owned() - old(Owned()))
      ensures Replies(outbox.history.sent) == Replies(old(outbox.history.sent)) + [Sent(Ack, d.id, ok)]
      ensures |storage.slots| == |old(storage.slots)| == |storage.writeable| && old(luaLoad).storage == storage
      ensures d.message.LuaStart? ==> storage.slots == old(storage.slots) && old(luaLoad).Started(d.message.index, ok)
      ensures storage.failures >= old(storage.failures)
      ensures (d.message.LuaStart? ==> storage.failures == old(storage.failures))
      ensures !d.message.LuaStart? ==> old(luaLoad).index == old(luaLoad.index) && old(luaLoad).OthersUnchanged()
      ensures d.message.LuaLine? ==> old(luaLoad).LineTaken(d.message.text, ok)
      ensures d.message.LuaEnd? ==> old(luaLoad).Ended(behind, ok)
      ensures luaLoad == if state == LUA_LOAD then old(luaLoad) else null
      ensures routines == if state == LUA_LOAD then old(routines) else catalogue.count(storage.slots)
    {
      hide Transmission.Tidy, Storage.Sound, LuaLoad.Uploading, LuaLoad.LineTaken, LuaLoad.Ended, Replies;
      var finished;
      finished, ok := luaLoad.Process(d, behind);
      if finished {
        SetState(ACTIVE);
      }
    }

    /** A message reaches the runner: it is answered once, and the routine runs as it says. */
    method RunnerMessage(d: Document) returns (ok: bool)
      requires Valid() && state == ROUTINE_RUN
      modifies this`routines, this`state, this`routineRun, this`luaLoad, routineRun, output, outbox
      ensures Valid() && state == NextState(ROUTINE_RUN, d.message, ok) && fresh(Owned() - old(Owned()))
      ensures if d.message.PatternStop? || (d.message.PatternStart? && !ok) then
                && state == ACTIVE && routineRun == null && output.active == None
                && output.remotePower == [0, 0, 0, 0]
              else state == ROUTINE_RUN && routineRun == old(routineRun)
      ensures d.message.PatternStop? ==> ok
      ensures Replies(outbox.history.sent) == Replies(old(outbox.history.sent)) + [Sent(Ack, d.id, ok)]
      ensures ok == (ForRoutine(d.message) && (d.message.PatternStart? ==> 0 <= d.message.index < routines))
      ensures routines == old(routines)
      ensures state == ROUTINE_RUN ==>
        && output.active == (if d.message.PatternStart? then Some(d.message.index % 256) else old(output.active))
        && output.remotePower == (if d.message.SetPower? then Narrowed(PowerOf(d.message)) else old(output.remotePower))
      ensures output.requests == old(output.requests) + Asked(d.message)
    {
      hide Transmission.Tidy, Storage.Valid, Replies, ForRoutine;
      var finished;
      finished, ok := routineRun.Process(d, routines);
      if finished {
        SetState(ACTIVE);
      }
    }

    /** A message that the processor answers itself. A list of options may be too long for its buffer. */
    method OwnMessage(d: Document) returns (ok: bool)
      requires Valid() && state == ACTIVE
      modifies this`routines, storage, outbox
      ensures Valid() && |storage.slots| == |old(storage.slots)| && storage.failures >= old(storage.failures)
      ensures Replies(outbox.history.sent) ==
              Replies(old(outbox.history.sent)) + [Sent(AnswerKind(ACTIVE, d.message), d.id, ok)]
      ensures !d.message.DeleteLuaScript? ==>
                unchanged(storage) && routines == old(routines) && (ok ==> old(Answerable(d.message)))
      ensures !d.message.DeleteLuaScript? && !d.message.GetPatternDetail? ==> ok == old(Answerable(d.message))
      ensures d.message.DeleteLuaScript? ==>
                Deleted(d.message.index % 256, ok) && routines == catalogue.count(storage.slots)
      ensures !d.message.DeleteLuaScript? && !d.message.GetPatternDetail? ==>
                ok == (d.message.GetLuaScripts? || d.message.GetPatterns? || d.message.GetVersion?)
      ensures d.message.GetPatternDetail? && ok ==> 0 <= d.message.patternId < routines
      ensures d.message.DeleteLuaScript? && ok ==>
                && d.message.index % 256 < |storage.slots|
                && ScriptIn(storage.slots[d.message.index % 256]).None?
                && forall k | 0 <= k < |storage.slots| && k != d.message.index % 256 ::
                     storage.slots[k] == old(storage.slots)[k]
      ensures d.message.DeleteLuaScript? && !ok ==> storage.slots == old(storage.slots)
    {
      hide Transmission.Tidy, Storage.Sound, Replies;
      match d.message {
        case GetLuaScripts =>
          outbox.Send(LuaScripts, d.id, true);
          return true;
        case DeleteLuaScript(index) =>
          ok := DeleteScriptMessage(d);
          return;
        case GetPatterns =>
          outbox.Send(PatternList, d.id, true);
          return true;
        case GetPatternDetail(id) =>
          var overflowed := *;
          var found := 0 <= id < routines && !overflowed;
          outbox.Send(PatternDetail, d.id, found);
          return found;
        case GetVersion =>
          outbox.Send(VersionDetails, d.id, true);
          return true;
        case _ =>
      }
      outbox.SendAck(false, d.id);
      return false;
    }

    method DeleteScriptMessage(d: Document) returns (ok: bool)
      requires Valid() && state == ACTIVE && d.message.DeleteLuaScript?
      modifies this`routines, storage, outbox
      ensures Valid() && |storage.slots| == |old(storage.slots)| && storage.failures >= old(storage.failures)
      ensures Replies(outbox.history.sent) == Replies(old(outbox.history.sent)) + [Sent(Ack, d.id, ok)]
      ensures Deleted(d.message.index % 256, ok) && routines == catalogue.count(storage.slots)
    {
      hide Transmission.Tidy, Storage.Sound, Replies;
      ok := storage.DeleteScript(d.message.index);
      if ok {
        outbox.SendAck(true, d.id);
      } else {
        outbox.SendAck(false, d.id);
      }
      ReloadRoutines();
    }

    /** Which messages the processor itself has an answer to. */
    predicate Answerable(m: Message)
      reads this
    {
      m.GetLuaScripts? || m.GetPatterns? || m.GetVersion? || (m.GetPatternDetail? && 0 <= m.patternId < routines)
    }

    /** How a deletion goes: only this slot changes, and it reads as absent. */
    twostate predicate Deleted(slot: nat, ok: bool)
      reads storage
    {
      if ok then
        && slot < |storage.slots| == |old(storage.slots)| && ScriptIn(storage.slots[slot]).None?
        && storage.slots == old(storage.slots)[slot := storage.slots[slot]]
      else storage.slots == old(storage.slots)
    }

    /** The body of the loop for a message that could be parsed: it is answered exactly once, by whoever handles it. */
    method Dispatch(d: Document, behind: seq<byte>) returns (ok: bool)
      requires Valid()
      modifies Parts(), outbox
      ensures Valid() && fresh(Owned() - old(Owned())) && pendingMessage == old(pendingMessage)
      ensures pendingText == old(pendingText)
      ensures handled == old(handled)
      ensures Replies(outbox.history.sent) ==
              Replies(old(outbox.history.sent)) +
              [Sent(AnswerKind(StateFor(old(state), d.message), d.message), d.id, ok)]
      ensures state == NextState(StateFor(old(state), d.message), d.message, ok)
      ensures state ==
              if d.message.LuaStart? then (if ok then LUA_LOAD else ACTIVE)
              else if d.message.PatternStart? then (if ok then ROUTINE_RUN else ACTIVE)
              else if old(state) == LUA_LOAD then (if ok && !d.message.LuaEnd? then LUA_LOAD else ACTIVE)
              else if old(state) == ROUTINE_RUN && !d.message.PatternStop? then ROUTINE_RUN else ACTIVE
      ensures old(state) == ROUTINE_RUN && d.message.PatternStop? ==> ok
      ensures state != ROUTINE_RUN ==> routineRun == null && output.active == None && output.remotePower == [0, 0, 0, 0]
      ensures |storage.slots| == |old(storage.slots)| && storage.failures >= old(storage.failures)
      ensures forall k | 0 <= k < |storage.slots| && k != old(Concerned(d.message)) ::
                storage.slots[k] == old(storage.slots)[k]
      ensures d.message.LuaStart? ==>
                && storage.slots == old(storage.slots)
                && ok == (d.message.index < |storage.slots| && storage.Startable(d.message.index % 256))
      ensures d.message.LuaStart? && ok ==> luaLoad.storage == storage && luaLoad.Started(d.message.index, true)
      ensures d.message.LuaStart? ==> storage.failures == old(storage.failures)
      ensures old(state) == LUA_LOAD && d.message.LuaLine? ==> old(luaLoad).LineTaken(d.message.text, ok)
      ensures old(state) == LUA_LOAD && d.message.LuaEnd? ==> old(luaLoad).Ended(behind, ok)
      ensures old(state) == LUA_LOAD && d.message.LuaLine? && ok ==> luaLoad == old(luaLoad)
      ensures old(state) == LUA_LOAD && d.message.PatternStart? && old(luaLoad.index) >= 0 ==>
                old(luaLoad).Rejected(old(luaLoad.before))
      ensures old(state) == ACTIVE && d.message.DeleteLuaScript? ==> Deleted(d.message.index % 256, ok)
      ensures StateFor(old(state), d.message) == ROUTINE_RUN ==> ok == old(Runs(d.message)) && Instructed(d.message)
    {
      hide Transmission.Tidy, Storage.Sound, Replies, LuaLoad.Valid, LuaLoad.LineTaken, LuaLoad.Ended, LuaLoad.Started,
           LuaLoad.Rejected, ForRoutine, RoutineOutput.Idle, RoutineOutput.Valid, ValidBuffer, Asked, Narrowed, Deleted,
           Instructed;
      if d.message.LuaStart? {
        ok := StartLoad(d, behind);
      } else if d.message.PatternStart? {
        ok := StartRoutine(d, behind);
      } else {
        ok := Handle(d, behind);
      }
      IdleUnlessRunning();
    }

    lemma IdleUnlessRunning()
      requires Valid()
      ensures state != ROUTINE_RUN ==>
                routineRun == null && output.active == None && output.remotePower == [0, 0, 0, 0]
    {
    }

    /** The start of an upload, in any state. */
    method StartLoad(d: Document, behind: seq<byte>) returns (ok: bool)
      requires Valid() && d.message.LuaStart?
      modifies Parts(), outbox
      ensures Valid() && fresh(Owned() - old(Owned())) && pendingMessage == old(pendingMessage)
      ensures pendingText == old(pendingText) && handled == old(handled)
      ensures Replies(outbox.history.sent) == Replies(old(outbox.history.sent)) + [Sent(Ack, d.id, ok)]
      ensures state == NextState(LUA_LOAD, d.message, ok)
      ensures storage.slots == old(storage.slots) && storage.failures == old(storage.failures)
      ensures |storage.slots| == |storage.writeable|
      ensures ok == (d.message.index < |storage.slots| && storage.Startable(d.message.index % 256))
      ensures ok ==> luaLoad.storage == storage && luaLoad.Started(d.message.index, true)
    {
      hide Transmission.Tidy, Storage.Sound, Replies, LuaLoad.Uploading, LuaLoad.LineTaken, LuaLoad.Ended,
           RoutineOutput.Idle, ValidBuffer;
      Prepare(d.message);
      ok := Handle(d, behind);
    }

    /** The start of a routine, in any state; an upload is given up. */
    method StartRoutine(d: Document, behind: seq<byte>) returns (ok: bool)
      requires Valid() && d.message.PatternStart?
      modifies Parts(), outbox
      ensures Valid() && fresh(Owned() - old(Owned())) && pendingMessage == old(pendingMessage)
      ensures pendingText == old(pendingText) && handled == old(handled)
      ensures Replies(outbox.history.sent) == Replies(old(outbox.history.sent)) + [Sent(Ack, d.id, ok)]
      ensures state == NextState(ROUTINE_RUN, d.message, ok) && unchanged(storage)
      ensures old(state) == LUA_LOAD && old(luaLoad.index) >= 0 ==> old(luaLoad).Rejected(old(luaLoad.before))
      ensures ok == old(Runs(d.message)) && Instructed(d.message)
      ensures ok <==>
              0 <= d.message.index < if old(state) == LUA_LOAD then catalogue.count(storage.slots) else old(routines)
      ensures ok ==> output.active == Some(d.message.index % 256)
    {
      hide Transmission.Tidy, Storage.Sound, Replies, LuaLoad.Uploading, ForRoutine, RoutineOutput.Idle, ValidBuffer,
           Asked, Narrowed;
      if luaLoad != null && luaLoad.index >= 0 {
        luaLoad.Unfinished();
      }
      StartsRoutine(d.message);
      Prepare(d.message);
      ok := Handle(d, behind);
    }

    lemma StartsRoutine(m: Message)
      requires m.PatternStart?
      ensures ForRoutine(m)
    {
    }

    method Prepare(m: Message)
      requires Valid() && (m.LuaStart? || m.PatternStart?)
      modifies this`routines, this`state, this`luaLoad, this`routineRun, output
      ensures Valid() && state == StateFor(old(state), m) && fresh(Owned() - old(Owned()))
      ensures state == old(state) ==> luaLoad == old(luaLoad)
      ensures output.requests == old(output.requests) && (!m.LuaStart? ==> unchanged(output))
      ensures routines ==
              if old(state) == LUA_LOAD && m.PatternStart? then catalogue.count(storage.slots) else old(routines)
    {
      hide Transmission.Tidy, Storage.Valid, LuaLoad.Valid, RoutineOutput.Idle;
      if m.LuaStart? {
        SetState(LUA_LOAD);
      } else {
        SetState(ROUTINE_RUN);
      }
    }

    method Handle(d: Document, behind: seq<byte>) returns (ok: bool)
      requires Valid() && state == StateFor(state, d.message)
      modifies Parts(), outbox
      ensures Valid() && fresh(Owned() - old(Owned())) && pendingMessage == old(pendingMessage)
      ensures pendingText == old(pendingText)
      ensures handled == old(handled)
      ensures Replies(outbox.history.sent) ==
              Replies(old(outbox.history.sent)) + [Sent(AnswerKind(old(state), d.message), d.id, ok)]
      ensures state == NextState(old(state), d.message, ok)
      ensures |storage.slots| == |old(storage.slots)| == |storage.writeable|
      ensures storage.failures >= old(storage.failures)
      ensures forall k | 0 <= k < |storage.slots| && k != old(Concerned(d.message)) ::
                storage.slots[k] == old(storage.slots)[k]
      ensures d.message.LuaStart? ==> old(luaLoad).storage == storage && old(luaLoad).Started(d.message.index, ok)
      ensures d.message.LuaStart? ==> storage.slots == old(storage.slots) && storage.failures == old(storage.failures)
      ensures old(state) == LUA_LOAD && d.message.LuaLine? ==> old(luaLoad).LineTaken(d.message.text, ok)
      ensures old(state) == LUA_LOAD && d.message.LuaEnd? ==> old(luaLoad).Ended(behind, ok)
      ensures state == LUA_LOAD ==> luaLoad == old(luaLoad)
      ensures old(state) == ACTIVE && d.message.DeleteLuaScript? ==> Deleted(d.message.index % 256, ok)
      ensures old(state) == ROUTINE_RUN ==> ok == old(Runs(d.message)) && Instructed(d.message) && unchanged(storage)
      ensures old(state) == ROUTINE_RUN && d.message.PatternStop? ==> ok
    {
      hide Transmission.Tidy, Storage.Sound, LuaLoad.Valid, Replies, LuaLoad.LineTaken, LuaLoad.Ended, ForRoutine,
           RoutineOutput.Idle;
      if state == LUA_LOAD {
        ok := LoaderMessage(d, behind);
      } else if state == ROUTINE_RUN {
        ok := RunnerMessage(d);
      } else {
        ok := OwnMessage(d);
      }
    }

    /** Which messages the runner accepts. */
    ghost predicate Runs(m: Message)
      reads this, storage
    {
      var known := if state == LUA_LOAD then catalogue.count(storage.slots) else routines;
      ForRoutine(m) && (m.PatternStart? ==> 0 <= m.index < known)
    }

    /** What the runner has the other core do, unless the message ends it. */
    twostate predicate Instructed(m: Message)
      reads this, output
    {
      && output.requests == old(output.requests) + Asked(m)
      && (state == ROUTINE_RUN ==>
            && output.active == (if m.PatternStart? then Some(m.index % 256) else old(output.active))
            && output.remotePower == (if m.SetPower? then Narrowed(PowerOf(m)) else old(output.remotePower)))
    }

    /** The answer to a message that is handled in this state. */
    function Answer(s: State, text: seq<byte>, ok: bool): Sent {
      match parse(CString(text))
      case None => Sent(Ack, -1, false)
      case Some(d) => Sent(AnswerKind(StateFor(s, d.message), d.message), d.id, ok)
    }

    /** loop: the pending message is handled as a C string and answered once, and its buffer is cleared; then the
        runner has its turn, if there is one. */
    method Loop(behind: seq<byte>, powerChanged: bool, scriptFailed: bool) returns (ok: bool)
      requires Valid()
      modifies Parts(), outbox
      ensures Valid() && !pendingMessage && fresh(Owned() - old(Owned())) && |storage.slots| == |old(storage.slots)|
      ensures Replies(outbox.history.sent) ==
              Replies(old(outbox.history.sent)) +
              if old(pendingMessage) then [Answer(old(state), old(pendingText), ok)] else []
      ensures handled == old(handled) + if old(pendingMessage) then [CString(old(pendingText))] else []
      ensures state == match (if old(pendingMessage) then parse(CString(old(pendingText))) else None)
        case None => old(state)
        case Some(d) => NextState(StateFor(old(state), d.message), d.message, ok)
      ensures old(pendingMessage) && parse(CString(old(pendingText))).Some? ==>
                var m := parse(CString(old(pendingText))).value.message;
                && state ==
                   (if m.LuaStart? then if ok then LUA_LOAD else ACTIVE
                    else if m.PatternStart? then if ok then ROUTINE_RUN else ACTIVE
                    else if old(state) == LUA_LOAD then if ok && !m.LuaEnd? then LUA_LOAD else ACTIVE
                    else if old(state) == ROUTINE_RUN && !m.PatternStop? then ROUTINE_RUN else ACTIVE)
                && (old(state) == ROUTINE_RUN && m.PatternStop? ==> ok)
      ensures !old(pendingMessage) || parse(CString(old(pendingText))).None? ==> state == old(state)
      ensures state != ROUTINE_RUN ==> routineRun == null && output.active == None && output.remotePower == [0, 0, 0, 0]
      ensures old(pendingMessage) ==>
                var sent, known := Replies(outbox.history.sent), parse(CString(old(pendingText)));
                && |sent| == |Replies(old(outbox.history.sent))| + 1
                && sent[|sent| - 1].id == (if known.Some? then known.value.id else -1)
                && sent[|sent| - 1].ok == (known.Some? && ok)
                && sent[|sent| - 1].kind ==
                   if known.None? || old(state) != ACTIVE then Ack
                   else if known.value.message.GetLuaScripts? then LuaScripts
                   else if known.value.message.GetPatterns? then PatternList
                   else if known.value.message.GetPatternDetail? then PatternDetail
                   else if known.value.message.GetVersion? then VersionDetails else Ack
    {
      hide Transmission.Tidy, Valid, Replies, CString, NextState, StateFor, Answer;
      StatesAre();
      AnswerIs(state, pendingText);
      ok := false;
      if pendingMessage {
        var parsed;
        parsed, ok := HandlePending(behind);
        if !parsed {
          IdleUnlessRunning();
          return;
        }
      }
      if routineRun != null {
        RunnerTurn(powerChanged, scriptFailed);
      }
      IdleUnlessRunning();
    }

    lemma AnswerIs(s: State, text: seq<byte>)
      ensures forall ok ::
                var a, known := Answer(s, text, ok), parse(CString(text));
                && a.id == (if known.Some? then known.value.id else -1) && a.ok == (known.Some? && ok)
                && a.kind == if known.None? || s != ACTIVE then Ack
                             else if known.value.message.GetLuaScripts? then LuaScripts
                             else if known.value.message.GetPatterns? then PatternList
                             else if known.value.message.GetPatternDetail? then PatternDetail
                             else if known.value.message.GetVersion? then VersionDetails else Ack
    {
    }

    method RunnerTurn(powerChanged: bool, scriptFailed: bool)
      requires Valid() && routineRun != null
      modifies outbox
      ensures Valid() && Replies(outbox.history.sent) == Replies(old(outbox.history.sent))
    {
      hide Transmission.Tidy, Replies, Storage.Valid, LuaLoad.Valid, RoutineOutput.Idle;
      routineRun.Loop(powerChanged, scriptFailed);
    }

    method HandlePending(behind: seq<byte>) returns (parsed: bool, ok: bool)
      requires Valid() && pendingMessage
      modifies Parts(), outbox
      ensures Valid() && !pendingMessage && fresh(Owned() - old(Owned())) && |storage.slots| == |old(storage.slots)|
      ensures Replies(outbox.history.sent) ==
              Replies(old(outbox.history.sent)) + [Answer(old(state), old(pendingText), ok)]
      ensures handled == old(handled) + [CString(old(pendingText))]
      ensures parsed == parse(CString(old(pendingText))).Some?
      ensures old(state) == ROUTINE_RUN && parsed && parse(CString(old(pendingText))).value.message.PatternStop? ==> ok
      ensures state == match parse(CString(old(pendingText)))
        case None => old(state)
        case Some(d) => NextState(StateFor(old(state), d.message), d.message, ok)
    {
      hide Transmission.Tidy, Replies, CString, Storage.Valid, LuaLoad.Valid, LuaLoad.LineTaken, LuaLoad.Ended,
           LuaLoad.Started, LuaLoad.Rejected, RoutineOutput.Idle;
      EndsInZero(pendingText, pendingBuffer[..]);
      handled := handled + [CString(pendingBuffer[..])];
      match parse(CString(pendingBuffer[..])) {
        case None =>
          outbox.SendAck(false, -1);
          parsed, ok := false, false;
        case Some(d) =>
          ok := Dispatch(d, behind);
          parsed := true;
      }
      Clear();
    }

    /** Power fails, at any moment at which the slots are sound: what is in flash stays. */
    method PowerFails()
      requires storage.Valid() && pendingBuffer.Length == MAX + 1
      modifies this, pendingBuffer, output
      ensures Valid() && state == ACTIVE && storage.slots == old(storage.slots)
    {
      output.active, output.remotePower := None, [0, 0, 0, 0];
      state, luaLoad, routineRun, pendingMessage, pendingText := ACTIVE, null, null, false, [];
      forall i | 0 <= i < pendingBuffer.Length {
        pendingBuffer[i] := 0;
      }
    }

    /** A client uploads a script line by line. If the end is acknowledged the slot reads as a newline and the lines,
        under the exact condition; if not, the previous script or none is there. No other slot changes. If no lock on
        flash fails, all is acknowledged exactly if the slot can be written, the lines fit, and the script is valid. */
    method Upload(index: nat, lines: seq<seq<byte>>, behind: seq<byte>) returns (ok: bool)
      requires Valid()
      modifies Parts(), outbox
      ensures Valid() && |storage.slots| == |old(storage.slots)| == |storage.writeable|
      ensures forall k | 0 <= k < |storage.slots| && k != index :: storage.slots[k] == old(storage.slots)[k]
      ensures ok ==>
                index < |storage.slots| && ReadsBack(storage.slots[index], old(storage.slots)[index], Joined(lines))
      ensures ok ==>
                && [10] + Joined(lines) <= storage.slots[index]
                && storage.valid(CString(storage.slots[index][1..] + behind))
                && (ScriptIn(storage.slots[index]) == Some([10] + Joined(lines)) <==>
                      && 1 + |Joined(lines)| < |storage.slots[index]|
                      && ((1 + |Joined(lines)|) % 4096 != 0 || old(storage.slots)[index][1 + |Joined(lines)|] == 0))
      ensures !ok && index < |storage.slots| ==>
                storage.slots[index] == old(storage.slots)[index] || ScriptIn(storage.slots[index]).None?
      ensures storage.failures == old(storage.failures) ==>
                ok == (index < |storage.slots| && storage.writeable[index] &&
                       Uploadable(Joined(lines), old(storage.slots)[index], behind, storage.valid))
    {
      hide Transmission.Tidy, LuaLoad.Valid, Storage.Sound, ScriptIn, Published, CString, Replies, AnswerKind;
      ok := Dispatch(Document(0, LuaStart(index)), behind);
      if ok {
        ok := UploadRest(index, lines, behind);
      }
    }

    method UploadRest(index: nat, lines: seq<seq<byte>>, behind: seq<byte>) returns (ok: bool)
      requires Valid() && state == LUA_LOAD && luaLoad.index == index < |storage.slots|
      requires luaLoad.upload == [0] && luaLoad.before == storage.slots[index]
      modifies Parts(), outbox
      ensures Valid() && |storage.slots| == |old(storage.slots)| == |storage.writeable| && fresh(Owned() - old(Owned()))
      ensures forall k | 0 <= k < |storage.slots| && k != index :: storage.slots[k] == old(storage.slots)[k]
      ensures ok ==> ReadsBack(storage.slots[index], old(storage.slots)[index], Joined(lines))
      ensures ok ==> |storage.slots[index]| == |old(storage.slots)[index]|
      ensures ok ==> [10] + Joined(lines) <= storage.slots[index]
      ensures ok ==> storage.valid(CString(storage.slots[index][1..] + behind))
      ensures !ok ==> storage.slots[index] == old(storage.slots)[index] || ScriptIn(storage.slots[index]).None?
      ensures storage.failures == old(storage.failures) ==>
                ok == Uploadable(Joined(lines), old(storage.slots)[index], behind, storage.valid)
    {
      hide Transmission.Tidy, LuaLoad.Valid, Storage.Sound, ScriptIn, ReadsBack, Published, CString, Replies,
           AnswerKind, NextState;
      ok := UploadLines(index, lines, behind);
      if ok {
        luaLoad.PublishedReadsBack();
        assert luaLoad.upload[1..] == Joined(lines);
        SectionOf(|Joined(lines)|, luaLoad.section);
        ok := Dispatch(Document(|lines| + 1, LuaEnd), behind);
      }
    }

    method UploadLine(id: int, line: seq<byte>, behind: seq<byte>) returns (ok: bool)
      requires Valid() && state == LUA_LOAD && 0 <= luaLoad.index < |storage.slots|
      modifies Parts(), outbox
      ensures Valid() && |storage.slots| == |old(storage.slots)| == |storage.writeable| && fresh(Owned() - old(Owned()))
      ensures storage.failures >= old(storage.failures)
      ensures forall k | 0 <= k < |storage.slots| && k != old(luaLoad.index) ::
                storage.slots[k] == old(storage.slots)[k]
      ensures ok ==>
                && state == LUA_LOAD && luaLoad.index == old(luaLoad.index) && luaLoad.before == old(luaLoad.before)
                && luaLoad.upload == old(luaLoad.upload) + CString(line + [NEWLINE])
      ensures !ok ==>
                || storage.slots[old(luaLoad.index)] == old(luaLoad.before)
                || ScriptIn(storage.slots[old(luaLoad.index)]).None?
      ensures !ok && storage.failures == old(storage.failures) ==>
                |old(luaLoad.upload) + CString(line + [NEWLINE])| > |old(luaLoad.before)|
    {
      hide Transmission.Tidy, LuaLoad.Valid, Storage.Sound, ScriptIn, CString, Replies, AnswerKind, LuaLoad.Started,
           Deleted, Instructed, Runs, RoutineOutput.Idle, ValidBuffer;
      ok := Dispatch(Document(id, LuaLine(line)), behind);
    }

    method UploadLines(index: nat, lines: seq<seq<byte>>, behind: seq<byte>) returns (ok: bool)
      requires Valid() && state == LUA_LOAD && luaLoad.index == index < |storage.slots|
      requires luaLoad.upload == [0] && luaLoad.before == storage.slots[index]
      modifies Parts(), outbox
      ensures Valid() && |storage.slots| == |old(storage.slots)| == |storage.writeable| && fresh(Owned() - old(Owned()))
      ensures forall k | 0 <= k < |storage.slots| && k != index :: storage.slots[k] == old(storage.slots)[k]
      ensures storage.failures >= old(storage.failures)
      ensures ok ==>
                && state == LUA_LOAD && luaLoad.index == index && luaLoad.upload == [0] + Joined(lines)
                && luaLoad.before == old(storage.slots)[index]
      ensures !ok ==> storage.slots[index] == old(storage.slots)[index] || ScriptIn(storage.slots[index]).None?
      ensures !ok && storage.failures == old(storage.failures) ==>
                !Uploadable(Joined(lines), old(storage.slots)[index], behind, storage.valid)
    {
      hide Transmission.Tidy, LuaLoad.Valid, Storage.Sound, ScriptIn, CString, Uploadable, RoutineOutput.Idle,
           ValidBuffer, RoutineOutput.Valid, LoaderValid;
      for i := 0 to |lines|
        invariant Valid() && state == LUA_LOAD && luaLoad.index == index && fresh(Owned() - old(Owned()))
        invariant luaLoad.upload == [0] + Joined(lines[..i]) && index < |storage.slots| == |old(storage.slots)|
        invariant luaLoad.before == old(storage.slots)[index] && storage.failures >= old(storage.failures)
        invariant forall k | 0 <= k < |storage.slots| && k != index :: storage.slots[k] == old(storage.slots)[k]
      {
        ok := UploadLine(i + 1, lines[i], behind);
        assert lines[..i + 1][..i] == lines[..i];
        if !ok {
          if storage.failures == old(storage.failures) {
            TooLong(lines, i + 1, old(storage.slots)[index], behind, storage.valid);
          }
          return;
        }
      }
      assert lines[..|lines|] == lines;
      ok := true;
    }

    method Clear()
      requires Valid()
      modifies this`pendingMessage, this`pendingText, pendingBuffer
      ensures Valid() && !pendingMessage
    {
      forall i | 0 <= i < MAX {
        pendingBuffer[i] := 0;
      }
      pendingMessage := false;
      pendingText := [];
    }
  }

  lemma StatesAre()
    ensures forall s, m: Message, ok ::
              NextState(StateFor(s, m), m, ok) ==
              if m.LuaStart? then if ok then LUA_LOAD else ACTIVE
              else if m.PatternStart? then if ok then ROUTINE_RUN else ACTIVE
              else if s == LUA_LOAD then if ok && !m.LuaEnd? then LUA_LOAD else ACTIVE
              else if s == ROUTINE_RUN && !m.PatternStop? then ROUTINE_RUN else ACTIVE
  {
  }

  lemma EndsInZero(text: seq<byte>, buffer: seq<byte>)
    requires |text| < |buffer| && buffer == text + seq(|buffer| - |text|, _ => 0)
    ensures CString(buffer) == CString(text)
  {
    var n := StrLen(text);
    StrLenIs(buffer, n);
    assert buffer[..n] == text[..n];
  }

  //
  // Any run of the processor
  //

  datatype Event = Arrives(text: seq<byte>) | Turn(behind: seq<byte>, powerChanged: bool, scriptFailed: bool)

  function Ids(sent: seq<Sent>): (r: seq<int>)
    ensures |r| == |sent|
  {
    seq(|sent|, i requires 0 <= i < |sent| => sent[i].id)
  }

  lemma OneMoreId(before: seq<Sent>, s: Sent)
    ensures multiset(Ids(before + [s])) == multiset(Ids(before)) + multiset{s.id}
  {
    assert Ids(before + [s]) == Ids(before) + [s.id];
  }

  /** The numbers of the messages that arrive. */
  function Arrived(p: MessageProcessor, events: seq<Event>): multiset<int> {
    if events == [] then multiset{}
    else
      var e := events[|events| - 1];
      Arrived(p, events[..|events| - 1]) + if e.Arrives? then multiset{p.IdOf(e.text)} else multiset{}
  }

  ghost function Waiting(p: MessageProcessor): multiset<int>
    reads p
  {
    if p.pendingMessage then multiset{p.IdOf(p.pendingText)} else multiset{}
  }

  ghost function Answered(p: MessageProcessor): multiset<int>
    reads p.outbox
  {
    multiset(Ids(Replies(p.outbox.history.sent)))
  }

  predicate Starts(parse: seq<byte> -> Option<Document>, text: seq<byte>) {
    parse(text).Some? && parse(text).value.message.PatternStart?
  }

  predicate Stops(parse: seq<byte> -> Option<Document>, text: seq<byte>) {
    parse(text).Some? && parse(text).value.message.PatternStop?
  }

  /** These messages were handled, and a start among them, or the one before them, was not followed by a stop. */
  ghost predicate MayRun(parse: seq<byte> -> Option<Document>, ran: bool, texts: seq<seq<byte>>) {
    || (ran && forall j | 0 <= j < |texts| :: !Stops(parse, texts[j]))
    || exists i | 0 <= i < |texts| ::
         Starts(parse, texts[i]) && forall j | i < j < |texts| :: !Stops(parse, texts[j])
  }

  lemma MayRunNext(parse: seq<byte> -> Option<Document>, ran: bool, texts: seq<seq<byte>>, text: seq<byte>)
    requires Starts(parse, text) || (MayRun(parse, ran, texts) && !Stops(parse, text))
    ensures MayRun(parse, ran, texts + [text])
  {
    hide Starts, Stops;
    var more := texts + [text];
    assert more[|texts|] == text;
    if !Starts(parse, text) {
      if ran && forall j | 0 <= j < |texts| :: !Stops(parse, texts[j]) {
        assert forall j | 0 <= j < |more| :: !Stops(parse, more[j]);
      } else {
        var i :| 0 <= i < |texts| && Starts(parse, texts[i]) && forall j | i < j < |texts| :: !Stops(parse, texts[j]);
        assert Starts(parse, more[i]) && forall j | i < j < |more| :: !Stops(parse, more[j]);
      }
    }
  }

  lemma NotAfterStop(parse: seq<byte> -> Option<Document>, ran: bool, handled: seq<seq<byte>>, since: nat, i: nat)
    requires since <= i < |handled| && Stops(parse, handled[i])
    requires forall j | i < j < |handled| :: !Starts(parse, handled[j])
    ensures !MayRun(parse, ran, handled[since..])
  {
    var texts := handled[since..];
    assert Stops(parse, texts[i - since]);
    forall k | 0 <= k < |texts| && Starts(parse, texts[k])
      ensures k < i - since
    {
      assert handled[since + k] == texts[k];
    }
  }

  /** However messages and turns of the loop follow each other, every message is answered exactly once, under its own
      number, at once or when its turn comes; and the loader, the runner and a running routine exist only in their
      own states. After a stop is handled nothing runs until the next start, whatever else is handled. */
  method Converse(p: MessageProcessor, events: seq<Event>)
    requires p.Valid()
    modifies p.Parts(), p.outbox
    ensures p.Valid() && fresh(p.Owned() - old(p.Owned()))
    ensures Answered(p) + Waiting(p) == old(Answered(p) + Waiting(p)) + Arrived(p, events)
    ensures (p.luaLoad != null <==> p.state == LUA_LOAD) && (p.routineRun != null <==> p.state == ROUTINE_RUN)
    ensures p.state != ROUTINE_RUN ==> p.output.active == None && p.output.remotePower == [0, 0, 0, 0]
    ensures old(p.handled) <= p.handled
    ensures forall i | |old(p.handled)| <= i < |p.handled| &&
                       p.parse(p.handled[i]).Some? && p.parse(p.handled[i]).value.message.PatternStop? &&
                       (forall j | i < j < |p.handled| ::
                          p.parse(p.handled[j]).Some? ==> !p.parse(p.handled[j]).value.message.PatternStart?) ::
              p.state != ROUTINE_RUN
  {
    hide Transmission.Tidy, MessageProcessor.Valid, Replies, Ids, Answered, Waiting, CString, MessageProcessor.IdOf,
         MayRun;
    MayRunAtFirst(p.parse, p.state == ROUTINE_RUN);
    assert p.handled[|p.handled|..] == [];
    for i := 0 to |events|
      invariant p.Valid() && fresh(p.Owned() - old(p.Owned()))
      invariant Answered(p) + Waiting(p) == old(Answered(p) + Waiting(p)) + Arrived(p, events[..i])
      invariant old(p.handled) <= p.handled
      invariant p.state == ROUTINE_RUN ==>
                  MayRun(p.parse, old(p.state) == ROUTINE_RUN, p.handled[|old(p.handled)|..])
    {
      assert events[..i + 1][..i] == events[..i];
      HappenNext(p, events[i], old(p.state) == ROUTINE_RUN, |old(p.handled)|);
    }
    assert events[..|events|] == events;
    OwnsByState(p);
    forall i: nat |
      && |old(p.handled)| <= i < |p.handled|
      && p.parse(p.handled[i]).Some? && p.parse(p.handled[i]).value.message.PatternStop?
      && forall j | i < j < |p.handled| ::
           p.parse(p.handled[j]).Some? ==> !p.parse(p.handled[j]).value.message.PatternStart?
      ensures p.state != ROUTINE_RUN
    {
      NotAfterStop(p.parse, old(p.state) == ROUTINE_RUN, p.handled, |old(p.handled)|, i);
    }
  }

  lemma MayRunAtFirst(parse: seq<byte> -> Option<Document>, ran: bool)
    ensures ran ==> MayRun(parse, ran, [])
  {
  }

  method HappenNext(p: MessageProcessor, e: Event, ghost ran: bool, ghost since: nat)
    requires p.Valid() && since <= |p.handled|
    requires p.state == ROUTINE_RUN ==> MayRun(p.parse, ran, p.handled[since..])
    modifies p.Parts(), p.outbox
    ensures p.Valid() && fresh(p.Owned() - old(p.Owned()))
    ensures Answered(p) + Waiting(p) ==
            old(Answered(p) + Waiting(p)) + if e.Arrives? then multiset{p.IdOf(e.text)} else multiset{}
    ensures old(p.handled) <= p.handled
    ensures p.state == ROUTINE_RUN ==> MayRun(p.parse, ran, p.handled[since..])
  {
    hide Transmission.Tidy, MessageProcessor.Valid, Replies, Ids, Answered, Waiting, MessageProcessor.IdOf, MayRun,
         Starts, Stops;
    Happen(p, e);
    if p.handled != old(p.handled) && p.state == ROUTINE_RUN {
      MayRunNext(p.parse, ran, old(p.handled)[since..], p.handled[|p.handled| - 1]);
      assert p.handled[since..] == old(p.handled)[since..] + [p.handled[|p.handled| - 1]];
    }
  }

  method Happen(p: MessageProcessor, e: Event)
    requires p.Valid()
    modifies p.Parts(), p.outbox
    ensures p.Valid() && fresh(p.Owned() - old(p.Owned()))
    ensures Answered(p) + Waiting(p) ==
            old(Answered(p) + Waiting(p)) + if e.Arrives? then multiset{p.IdOf(e.text)} else multiset{}
    ensures
      || (p.handled == old(p.handled) && p.state == old(p.state))
      || exists text ::
           && p.handled == old(p.handled) + [text]
           && (p.state == ROUTINE_RUN ==>
                 Starts(p.parse, text) || (old(p.state) == ROUTINE_RUN && !Stops(p.parse, text)))
  {
    hide Transmission.Tidy, MessageProcessor.Valid, Replies, Ids, Starts, Stops;
    match e {
      case Arrives(text) =>
        Arrive(p, text);
      case Turn(behind, powerChanged, scriptFailed) =>
        TakeTurn(p, behind, powerChanged, scriptFailed);
    }
  }

  method Arrive(p: MessageProcessor, text: seq<byte>)
    requires p.Valid()
    modifies p`pendingMessage, p`pendingText, p.pendingBuffer, p.outbox
    ensures p.Valid()
    ensures Answered(p) + Waiting(p) == old(Answered(p) + Waiting(p)) + multiset{p.IdOf(text)}
  {
    hide Transmission.Tidy, MessageProcessor.Valid, Replies, Ids;
    OneMoreId(Replies(p.outbox.history.sent), p.Refusal(text));
    p.TakeMessage(text);
  }

  method TakeTurn(p: MessageProcessor, behind: seq<byte>, powerChanged: bool, scriptFailed: bool)
    requires p.Valid()
    modifies p.Parts(), p.outbox
    ensures p.Valid() && fresh(p.Owned() - old(p.Owned()))
    ensures Answered(p) + Waiting(p) == old(Answered(p) + Waiting(p))
    ensures
      || (p.handled == old(p.handled) && p.state == old(p.state))
      || exists text ::
           && p.handled == old(p.handled) + [text]
           && (p.state == ROUTINE_RUN ==>
                 Starts(p.parse, text) || (old(p.state) == ROUTINE_RUN && !Stops(p.parse, text)))
  {
    hide Transmission.Tidy, MessageProcessor.Valid, Replies, Ids, NextState, AnswerKind, StateFor, CString,
         MessageProcessor.Answer, MessageProcessor.IdOf, MessageProcessor.Owned;
    ghost var before, state, text := Replies(p.outbox.history.sent), p.state, p.pendingText;
    PendingFits(p);
    var ok := p.Loop(behind, powerChanged, scriptFailed);
    AnsweredById(p, state, text, ok);
    assert old(p.pendingMessage) ==> p.handled == old(p.handled) + [CString(text)];
    OneMoreId(before, p.Answer(state, text, ok));
    assert before + [] == before;
  }

  lemma AnsweredById(p: MessageProcessor, s: State, text: seq<byte>, ok: bool)
    requires |text| <= MAX
    ensures p.Answer(s, text, ok).id == p.IdOf(text)
  {
  }

  lemma OwnsByState(p: MessageProcessor)
    requires p.Valid()
    ensures (p.luaLoad != null <==> p.state == LUA_LOAD) && (p.routineRun != null <==> p.state == ROUTINE_RUN)
    ensures p.state != ROUTINE_RUN ==> p.output.active == None && p.output.remotePower == [0, 0, 0, 0]
  {
  }

  lemma PendingFits(p: MessageProcessor)
    requires p.Valid()
    ensures |p.pendingText| <= MAX
  {
  }
}
