/** Uploading Lua scripts into flash: the buffered, two-phase upload of CLuaLoad.cpp and the slots of CLuaStorage.cpp.
    Storing one section (erase and program) is one step. */
module LuaUpload {
  import opened Bytes
  import opened Options
  import opened NorFlash
  import opened Protocol
  import Transmission

  const SECTION := 4096
  const NEWLINE: byte := 10

  /** get_script_at_index: what a slot reads as. */
  function ScriptIn(slot: seq<byte>): Option<seq<byte>> {
    var n := StrLen(slot);
    if n == 0 || n == |slot| then None else Some(slot[..n])
  }

  /** A slot that reads as a newline and a script that was found valid. */
  predicate Accepted(slot: seq<byte>, valid: seq<byte> -> bool) {
    match ScriptIn(slot)
    case None => false
    case Some(s) => s[0] == NEWLINE && valid(s[1..])
  }

  function Stored(slot: seq<byte>, section: nat, fragment: seq<byte>): (r: seq<byte>)
    requires |fragment| == SECTION && section * SECTION + SECTION <= |slot|
    ensures |r| == |slot|
  {
    slot[..section * SECTION] + fragment + slot[section * SECTION + SECTION..]
  }

  class Storage {
    var slots: seq<seq<byte>>
    const writeable: seq<bool>
    const sections: seq<nat>
    ghost const origin: seq<seq<byte>>
    const valid: seq<byte> -> bool
    // How often flash could not be locked for writing.
    ghost var failures: nat

    ghost predicate Valid()
      reads this
    {
      && |slots| == |writeable| == |sections| == |origin| < 256
      && forall i | 0 <= i < |slots| :: Sound(i, slots[i])
    }

    /** At every moment a slot is untouched, or reads as absent, or holds an accepted script; and only writeable
        slots are ever touched. */
    ghost predicate Sound(i: nat, slot: seq<byte>)
      requires i < |writeable| == |sections| == |origin|
    {
      && |slot| == |origin[i]| && (writeable[i] ==> |slot| == sections[i] * SECTION && sections[i] < 256)
      && (slot == origin[i] || (writeable[i] && (ScriptIn(slot).None? || Accepted(slot, valid))))
    }

    constructor (slots: seq<seq<byte>>, writeable: seq<bool>, sections: seq<nat>, valid: seq<byte> -> bool)
      requires |slots| == |writeable| == |sections| < 256
      requires forall i | 0 <= i < |slots| && writeable[i] :: |slots[i]| == sections[i] * SECTION && sections[i] < 256
      ensures Valid() && this.slots == origin == slots && this.writeable == writeable && this.valid == valid
    {
      this.slots, this.writeable, this.sections, this.origin, this.valid := slots, writeable, sections, slots, valid;
      failures := 0;
    }

    /** is_script_index_valid, for an index already narrowed to eight bits. The entry behind the last slot is a
        sentinel that is not writeable. */
    predicate IndexValid(index: nat)
      requires |writeable| < 256
    {
      index < |writeable| && writeable[index]
    }

    /** A slot that can be written and has a size. */
    predicate Startable(index: nat)
      requires |slots| == |writeable|
      reads this
    {
      index < |slots| && writeable[index] && |slots[index]| > 0
    }

    /** store_script_section. Whoever calls it must see to it that the slot is sound afterwards. */
    method StoreSection(scriptIndex: nat, section: nat, fragment: seq<byte>) returns (ok: bool)
      requires Valid() && scriptIndex < 256 && |fragment| == SECTION
      requires IndexValid(scriptIndex) && section * SECTION + SECTION <= |slots[scriptIndex]| ==>
               Sound(scriptIndex, Stored(slots[scriptIndex], section, fragment))
      modifies this
      ensures Valid()
      ensures ok ==> IndexValid(scriptIndex) && section * SECTION + SECTION <= |old(slots)[scriptIndex]|
                     && slots == old(slots)[scriptIndex := Stored(old(slots)[scriptIndex], section, fragment)]
      ensures !ok ==> slots == old(slots)
      ensures failures == old(failures) +
        if !ok && IndexValid(scriptIndex) && section * SECTION + SECTION <= |slots[scriptIndex]| then 1 else 0
    {
      if !IndexValid(scriptIndex) {
        return false;
      }
      var flashSize := |slots[scriptIndex]|;
      if flashSize < SECTION {
        return false;
      }
      if section * SECTION + SECTION > flashSize {
        return false;
      }
      ok := *;
      if ok {
        slots := slots[scriptIndex := Stored(slots[scriptIndex], section, fragment)];
      } else {
        failures := failures + 1;
      }
    }

    /** delete_script_at_index, which narrows its index to eight bits. */
    method DeleteScript(index: int) returns (ok: bool)
      requires Valid()
      modifies this
      ensures Valid()
      ensures
        var i := index % 256;
        if ok then IndexValid(i) && ScriptIn(slots[i]).None? && slots == old(slots)[i := slots[i]]
        else slots == old(slots)
      ensures failures >= old(failures)
      ensures (!ok && failures == old(failures) ==> !IndexValid(index % 256) || |slots[index % 256]| == 0)
    {
      var i := index % 256;
      if !IndexValid(i) || |slots[i]| == 0 {
        return false;
      }
      ok := *;
      if ok {
        StrLenIs(Blank(|slots[i]|), |slots[i]|);
        slots := slots[i := Blank(|slots[i]|)];
      } else {
        failures := failures + 1;
      }
    }
  }

  /** What an accepted upload leaves in the slot: the bytes received, with a newline in place of the first, padded
      with zeros to the end of the section; behind that, what was there before. */
  function Published(upload: seq<byte>, section: nat, before: seq<byte>): (r: seq<byte>)
    requires section * SECTION < |upload| <= section * SECTION + SECTION <= |before|
    ensures |r| == |before|
  {
    [NEWLINE] + upload[1..] + Filled(section * SECTION + SECTION - |upload|, 0) + before[section * SECTION + SECTION..]
  }

  /** What can be said of the slot while an upload fills it: sections already stored, then what was there before. */
  function Partly(upload: seq<byte>, section: nat, before: seq<byte>): (r: seq<byte>)
    requires section * SECTION <= |upload| && section * SECTION <= |before|
    ensures |r| == |before|
  {
    upload[..section * SECTION] + before[section * SECTION..]
  }

  lemma WholeSection(upload: seq<byte>, section: nat, buffer: seq<byte>)
    requires |upload| == section * SECTION + SECTION && buffer == upload[section * SECTION..] + Filled(0, 0)
    ensures buffer == upload[section * SECTION..(section + 1) * SECTION]
  {
  }

  lemma StoreNext(upload: seq<byte>, section: nat, before: seq<byte>)
    requires section * SECTION + SECTION <= |upload| && section * SECTION + SECTION <= |before|
    ensures Stored(Partly(upload, section, before), section, upload[section * SECTION..(section + 1) * SECTION])
         == Partly(upload, section + 1, before)
  {
  }

  /** As long as the first byte of an upload is zero the slot is untouched or reads as absent. */
  lemma AbsentOrUntouched(upload: seq<byte>, section: nat, before: seq<byte>)
    requires section * SECTION <= |upload| && section * SECTION <= |before| && upload != [] && upload[0] == 0
    ensures if section == 0 then Partly(upload, section, before) == before
            else ScriptIn(Partly(upload, section, before)).None?
  {
    if section > 0 {
      assert Partly(upload, section, before)[0] == 0;
    }
  }

  class LuaLoad {
    const storage: Storage
    const outbox: Outbox
    const buffer: array<byte>
    var slotSize: nat
    var section: nat
    var position: nat
    var index: int
    ghost var upload: seq<byte>
    ghost var before: seq<byte>

    ghost predicate Valid()
      reads this, storage, buffer
    {
      storage.Valid() && buffer.Length == SECTION && (index >= 0 ==> Uploading() && position >= 1)
    }

    /** Between an accepted LuaStart and the end: the bytes of the upload, the first of them zero, are split between
        the sections stored and the buffer. */
    ghost predicate Uploading()
      reads this, storage, buffer
    {
      && 0 <= index < |storage.slots| == |storage.writeable| == |storage.sections| && storage.writeable[index]
      && buffer.Length == SECTION && slotSize == |before| == storage.sections[index] * SECTION
      && section < storage.sections[index] && position <= SECTION && |upload| == section * SECTION + position
      && upload != [] && upload[0] == 0 && (forall i | 1 <= i < |upload| :: upload[i] != 0)
      && storage.slots[index] == Partly(upload, section, before)
      && buffer[..] == upload[section * SECTION..] + Filled(SECTION - position, 0)
    }

    constructor (storage: Storage, outbox: Outbox)
      requires storage.Valid()
      ensures Valid() && this.storage == storage && this.outbox == outbox && index == -1 && fresh(buffer)
    {
      this.storage, this.outbox := storage, outbox;
      buffer := new byte[SECTION](_ => 0);
      slotSize, section, position, index := 0, 0, 0, -1;
    }

    method ClearBuffer()
      modifies buffer
      ensures forall i | 0 <= i < buffer.Length :: buffer[i] == 0
    {
      forall i | 0 <= i < buffer.Length {
        buffer[i] := 0;
      }
    }

    /** How LuaStart goes: it succeeds exactly for an index in the table, the slot of whose lower eight bits can be
        written and has a size. */
    ghost predicate Started(newIndex: int, ok: bool)
      requires |storage.slots| == |storage.writeable|
      reads this, storage
    {
      && index == newIndex
      && ok == (newIndex < |storage.slots| && storage.Startable(newIndex % 256))
      && (ok && newIndex >= 0 ==> upload == [0] && before == storage.slots[newIndex])
    }

    /** LuaStart. Nothing is written yet; the first byte of the upload will be zero. */
    method Start(newIndex: int) returns (failed: bool)
      requires storage.Valid() && buffer.Length == SECTION
      modifies this, buffer
      ensures !failed ==> Valid()
      ensures Started(newIndex, !failed)
      ensures !failed <==>
              && newIndex < |storage.slots| && newIndex % 256 < |storage.slots| && storage.writeable[newIndex % 256]
              && |storage.slots[newIndex % 256]| > 0
    {
      slotSize, section, position := 0, 0, 0;
      ClearBuffer();
      index := newIndex;
      if index >= |storage.slots| {
        return true;
      }
      var narrow := index % 256;
      if narrow >= |storage.slots| || !storage.writeable[narrow] {
        return true;
      }
      if |storage.slots[narrow]| == 0 {
        return true;
      }
      slotSize := |storage.slots[narrow]|;
      position := 1;
      upload, before := [0], storage.slots[narrow];
      assert buffer[..] == [0] + Filled(SECTION - 1, 0);
      return false;
    }

    /** Other slots never change. */
    twostate predicate OthersUnchanged()
      reads this, storage
    {
      |storage.slots| == |old(storage.slots)| &&
      forall k | 0 <= k < |storage.slots| && k != index :: storage.slots[k] == old(storage.slots)[k]
    }

    /** What a failed upload leaves: the previous script, or none. */
    ghost predicate Rejected(was: seq<byte>)
      reads this, storage
    {
      0 <= index < |storage.slots| && (storage.slots[index] == was || ScriptIn(storage.slots[index]).None?)
    }

    /** An upload that is given up leaves the same. */
    lemma Unfinished()
      requires Valid() && index >= 0
      ensures Rejected(before)
    {
      AbsentOrUntouched(upload, section, before);
    }

    /** The full buffer goes to flash; an upload that fills all sections and still has more is too large. */
    method FlushSection() returns (ok: bool)
      requires Valid() && index >= 0 && position >= SECTION
      modifies this`section, this`position, buffer, storage
      ensures storage.Valid() && OthersUnchanged()
      ensures if ok then Uploading() && position == 0 else Rejected(before)
      ensures upload == old(upload) && before == old(before) && index == old(index) && slotSize == old(slotSize)
      ensures storage.failures >= old(storage.failures)
      ensures !ok && storage.failures == old(storage.failures) ==> |upload| == slotSize
    {
      hide Stored, Filled, StrLen, ScriptIn, Accepted, Partly;
      WholeSection(upload, section, buffer[..]);
      StoreNext(upload, section, before);
      AbsentOrUntouched(upload, section, before);
      AbsentOrUntouched(upload, section + 1, before);
      var stored := storage.StoreSection(index % 256, section, buffer[..]);
      position := 0;
      ClearBuffer();
      if !stored {
        return false;
      }
      section := section + 1;
      if section >= slotSize / SECTION {
        return false;
      }
      ok := true;
    }

    /** One character into the buffer. */
    method Append(c: byte)
      requires storage.Valid() && index >= 0 && Uploading() && position < SECTION && c != 0
      modifies this`position, this`upload, buffer
      ensures Valid() && upload == old(upload) + [c]
    {
      buffer[position] := c;
      position := position + 1;
      upload := upload + [c];
    }

    /** How LuaLine goes: if no lock on flash fails, it succeeds exactly if the line still fits. */
    twostate predicate LineTaken(text: seq<byte>, ok: bool)
      reads this, storage
    {
      var line := CString(text + [NEWLINE]);
      && index == old(index) && OthersUnchanged()
      && (old(index) < 0 ==> !ok && storage.slots == old(storage.slots))
      && (ok ==> upload == old(upload) + line && before == old(before) && |upload| <= |before|)
      && (old(index) >= 0 && !ok ==> Rejected(old(before)))
      && (old(index) >= 0 && storage.failures == old(storage.failures) ==>
          ok == (|old(upload) + line| <= |old(before)|))
    }

    /** LuaLine: the characters of the text and a newline, up to the first zero. */
    method Line(text: seq<byte>) returns (failed: bool)
      requires Valid()
      modifies this, buffer, storage
      ensures storage.Valid() && buffer.Length == SECTION && (!failed ==> Valid())
      ensures LineTaken(text, !failed) && storage.failures >= old(storage.failures)
      ensures old(index) >= 0 && storage.failures == old(storage.failures) ==>
                (failed <==> |old(upload)| + |CString(text + [10])| > |old(before)|)
      ensures !failed ==> upload == old(upload) + CString(text + [10])
    {
      if index < 0 {
        return true;
      }
      hide Stored, ScriptIn, Accepted, Storage.IndexValid, Storage.Sound;
      var textC := text + [NEWLINE];
      var n := StrLen(textC);
      for i := 0 to n
        invariant Valid() && index == old(index) && OthersUnchanged()
        invariant upload == old(upload) + textC[..i] && before == old(before)
        invariant storage.failures >= old(storage.failures)
      {
        if position >= SECTION {
          var ok := FlushSection();
          if !ok {
            return true;
          }
        }
        Append(textC[i]);
      }
      assert |upload| <= |before|;
      return false;
    }

    /** How LuaEnd goes: if no lock on flash fails, it succeeds exactly if the script is valid. */
    twostate predicate Ended(behind: seq<byte>, ok: bool)
      reads this, storage
    {
      && index == old(index) && OthersUnchanged()
      && (old(index) < 0 ==> ok && storage.slots == old(storage.slots))
      && (old(index) >= 0 ==>
            && index < |storage.slots| && old(section * SECTION < |upload| <= section * SECTION + SECTION <= |before|)
            && (var published := old(Published(upload, section, before));
                && (if ok then storage.slots[index] == published else Rejected(old(before)))
                && (ok ==> storage.valid(CString(published[1..] + behind)))
                && (storage.failures == old(storage.failures) ==>
                    ok == storage.valid(CString(published[1..] + behind)))))
    }

    /** LuaEnd: the rest goes to flash, the script is read back and validated (as a C string from the second byte,
        with whatever lies behind the slot), and only then is the first section stored again with a newline in
        place of its zero. */
    method End(id: int, behind: seq<byte>) returns (ok: bool)
      requires Valid()
      modifies this, buffer, storage, outbox
      ensures storage.Valid() && Ended(behind, ok) && storage.failures >= old(storage.failures)
      ensures ok && old(index) >= 0 ==>
                && 0 <= index < |storage.slots| && [10] + old(upload)[1..] <= storage.slots[index]
                && storage.valid(CString(storage.slots[index][1..] + behind))
      ensures !ok ==>
                && 0 <= index < |storage.slots|
                && (storage.slots[index] == old(before) || ScriptIn(storage.slots[index]).None?)
      ensures Replies(outbox.history.sent) == Replies(old(outbox.history.sent)) + [Sent(Ack, id, ok)]
    {
      hide Transmission.Tidy, Replies;
      if index < 0 {
        outbox.SendAck(true, id);
        return true;
      }
      hide Stored, StrLen, CString, Accepted, ScriptIn, Filled, Storage.IndexValid, Published, PaddedToSection, Partly;
      var stored := StoreLast();
      if !stored {
        outbox.SendAck(false, id);
        Reset();
        return false;
      }
      var script := storage.slots[index];
      SameText(upload, section, before);
      if !storage.valid(CString(script[1..] + behind)) {
        outbox.SendAck(false, id);
        Reset();
        return false;
      }
      stored := Publish(script, behind);
      if !stored {
        outbox.SendAck(false, id);
        Reset();
        return false;
      }
      outbox.SendAck(true, id);
      return true;
    }

    /** The first phase ends: all sections are stored, the first byte still zero. */
    method StoreLast() returns (ok: bool)
      requires Valid() && index >= 0
      modifies storage
      ensures storage.Valid() && OthersUnchanged() && Rejected(before)
      ensures section * SECTION < |upload| <= section * SECTION + SECTION <= |before|
      ensures ok ==> storage.slots[index] == Partly(PaddedToSection(upload, section), section + 1, before)
      ensures storage.failures == old(storage.failures) + if ok then 0 else 1
    {
      hide Stored, StrLen, ScriptIn, Filled, PaddedToSection, Partly;
      LastSection(upload, section, before, buffer[..]);
      AbsentOrUntouched(upload, section, before);
      StillZero(upload, section);
      AbsentOrUntouched(PaddedToSection(upload, section), section + 1, before);
      ok := storage.StoreSection(index % 256, section, buffer[..]);
    }

    /** The second phase, in one step. */
    method Publish(script: seq<byte>, behind: seq<byte>) returns (ok: bool)
      requires storage.Valid() && buffer.Length == SECTION && 0 <= index < |storage.slots| && storage.writeable[index]
      requires section * SECTION < |upload| <= section * SECTION + SECTION <= |before|
      requires script == storage.slots[index] == Partly(PaddedToSection(upload, section), section + 1, before)
      requires storage.valid(CString(script[1..] + behind))
      modifies storage, buffer
      ensures storage.Valid() && OthersUnchanged()
      ensures if ok then storage.slots[index] == Published(upload, section, before)
              else storage.slots == old(storage.slots)
      ensures ok ==> storage.valid(CString(storage.slots[index][1..] + behind))
      ensures storage.failures == old(storage.failures) + if ok then 0 else 1
    {
      hide Stored, StrLen, CString, Accepted, ScriptIn, Filled, Published, PaddedToSection, Partly;
      CopyFirstSection(script);
      buffer[0] := NEWLINE;
      PublishFirst(upload, section, before, buffer[..], behind, storage.valid);
      ok := storage.StoreSection(index % 256, 0, buffer[..]);
    }

    lemma PublishedReadsBack()
      requires Valid() && index >= 0
      ensures section * SECTION < |upload| <= section * SECTION + SECTION <= |before|
      ensures ReadsBack(Published(upload, section, before), before, upload[1..])
      ensures [10] + upload[1..] <= Published(upload, section, before)
    {
      ReadBack(upload, section, before);
    }

    method CopyFirstSection(script: seq<byte>)
      requires |script| >= SECTION && buffer.Length == SECTION
      modifies buffer
      ensures buffer[..] == script[..SECTION]
    {
      forall i | 0 <= i < SECTION {
        buffer[i] := script[i];
      }
    }

    /** process: a start, a line or the end of a script, each answered once; anything else ends the upload. */
    method Process(d: Document, behind: seq<byte>) returns (finished: bool, ok: bool)
      requires Valid()
      modifies this, buffer, storage, outbox
      ensures storage.Valid() && (!finished ==> Valid())
      ensures Replies(outbox.history.sent) == Replies(old(outbox.history.sent)) + [Sent(Ack, d.id, ok)]
      ensures finished == (!ok || d.message.LuaEnd?)
      ensures storage.failures >= old(storage.failures)
      ensures d.message.LuaStart? ==> unchanged(storage) && Started(d.message.index, ok)
      ensures !d.message.LuaStart? ==> index == old(index) && OthersUnchanged()
      ensures d.message.LuaLine? ==> LineTaken(d.message.text, ok)
      ensures d.message.LuaEnd? ==> Ended(behind, ok)
      ensures !d.message.LuaStart? && !d.message.LuaLine? && !d.message.LuaEnd? ==>
                !ok && storage.slots == old(storage.slots)
    {
      hide Transmission.Tidy, Replies;
      var failed;
      match d.message {
        case LuaStart(newIndex) =>
          failed := Start(newIndex);
        case LuaLine(text) =>
          failed := Line(text);
        case LuaEnd =>
          ok := End(d.id, behind);
          return true, ok;
        case _ =>
          failed := true;
      }
      if failed {
        outbox.SendAck(false, d.id);
        Reset();
      } else {
        outbox.SendAck(true, d.id);
      }
      return failed, !failed;
    }

    method Reset()
      requires buffer.Length == SECTION
      modifies this`slotSize, this`section, this`position, buffer
    {
      slotSize, section, position := 0, 0, 0;
      ClearBuffer();
    }
  }

  /** The upload padded with zeros to the end of a section. */
  function PaddedToSection(upload: seq<byte>, section: nat): (r: seq<byte>)
    requires |upload| <= section * SECTION + SECTION
    ensures |r| == section * SECTION + SECTION
  {
    upload + Filled(section * SECTION + SECTION - |upload|, 0)
  }

  /** The script is validated as it will read once it is published. */
  lemma SameText(upload: seq<byte>, section: nat, before: seq<byte>)
    requires section * SECTION < |upload| <= section * SECTION + SECTION <= |before| && upload != []
    ensures Partly(PaddedToSection(upload, section), section + 1, before)[1..] ==
            Published(upload, section, before)[1..]
  {
  }

  lemma StillZero(upload: seq<byte>, section: nat)
    requires upload != [] && |upload| <= section * SECTION + SECTION && upload[0] == 0
    ensures PaddedToSection(upload, section)[0] == 0
  {
  }

  lemma LastSection(upload: seq<byte>, section: nat, before: seq<byte>, buffer: seq<byte>)
    requires section * SECTION < |upload| <= section * SECTION + SECTION <= |before|
    requires buffer == upload[section * SECTION..] + Filled(section * SECTION + SECTION - |upload|, 0)
    ensures |buffer| == SECTION
    ensures Stored(Partly(upload, section, before), section, buffer) ==
            Partly(PaddedToSection(upload, section), section + 1, before)
  {
  }

  /** Storing the first section again publishes exactly the script that was validated. */
  lemma PublishFirst(upload: seq<byte>, section: nat, before: seq<byte>, buffer: seq<byte>, behind: seq<byte>,
                     valid: seq<byte> -> bool)
    requires section * SECTION < |upload| <= section * SECTION + SECTION <= |before| && upload != []
    requires
      var script := Partly(PaddedToSection(upload, section), section + 1, before);
      buffer == script[..SECTION][0 := NEWLINE] && valid(CString(script[1..] + behind))
    ensures
      var script := Partly(PaddedToSection(upload, section), section + 1, before);
      Stored(script, 0, buffer) == Published(upload, section, before)
    ensures
      var slot := Published(upload, section, before);
      (ScriptIn(slot).None? || Accepted(slot, valid)) && valid(CString(slot[1..] + behind))
  {
    var script, slot :=
        Partly(PaddedToSection(upload, section), section + 1, before), Published(upload, section, before);
    assert Stored(script, 0, buffer) == slot;
    assert slot[1..] == script[1..];
    ReadsAsValidated(slot, behind, valid);
  }

  lemma ReadsAsValidated(slot: seq<byte>, behind: seq<byte>, valid: seq<byte> -> bool)
    requires slot != [] && slot[0] == NEWLINE && valid(CString(slot[1..] + behind))
    ensures ScriptIn(slot).None? || Accepted(slot, valid)
  {
    var n := StrLen(slot);
    if n < |slot| {
      StrLenIs(slot[1..] + behind, n - 1);
      assert (slot[1..] + behind)[..n - 1] == slot[..n][1..];
    }
  }

  /** After an accepted upload the slot reads as a newline and the uploaded lines just when they do not fill the
      slot, and either end within a section or were followed by a zero already. (When they end at the end of a section,
      what was stored behind it before is read as part of the script.) */
  lemma ReadBack(upload: seq<byte>, section: nat, before: seq<byte>)
    requires section * SECTION < |upload| <= section * SECTION + SECTION <= |before|
    requires forall i | 1 <= i < |upload| :: upload[i] != 0
    ensures ScriptIn(Published(upload, section, before)) == Some([NEWLINE] + upload[1..]) <==>
            |upload| < |before| && (|upload| % SECTION != 0 || before[|upload|] == 0)
  {
    var slot, n := Published(upload, section, before), |upload|;
    assert slot[..n] == [NEWLINE] + upload[1..];
    assert n < |slot| ==> slot[n] == if n < section * SECTION + SECTION then 0 else before[n];
    if n < |slot| && slot[n] == 0 {
      StrLenIs(slot, n);
    } else {
      assert StrLen(slot) != n || n == |slot|;
    }
    EndsInside(n, section);
  }

  /** For instance, lines that fill one section exactly, in a slot of two that held a longer script. */
  lemma FullSectionReadsOn(upload: seq<byte>, before: seq<byte>)
    requires upload == [0] + seq(SECTION - 1, _ => 97) && before == seq(2 * SECTION, _ => 98)
    ensures ScriptIn(Published(upload, 0, before)) != Some([NEWLINE] + upload[1..])
  {
    hide ScriptIn, Published;
    ReadBack(upload, 0, before);
    assert before[SECTION] == 98;
  }

  lemma EndsInside(n: nat, section: nat)
    requires section * SECTION < n <= section * SECTION + SECTION
    ensures n % SECTION != 0 <==> n < section * SECTION + SECTION
  {
  }

  predicate ReadsBack(now: seq<byte>, was: seq<byte>, text: seq<byte>) {
    ScriptIn(now) == Some([NEWLINE] + text) <==>
      1 + |text| < |was| && ((1 + |text|) % SECTION != 0 || was[1 + |text|] == 0)
  }

  /** All lines as they are uploaded, each with its newline. */
  function Joined(lines: seq<seq<byte>>): seq<byte> {
    if lines == [] then [] else Joined(lines[..|lines| - 1]) + CString(lines[|lines| - 1] + [NEWLINE])
  }

  /** Whether this text, uploaded into a slot with this content, fits and is found valid. */
  ghost predicate Uploadable(text: seq<byte>, before: seq<byte>, behind: seq<byte>, valid: seq<byte> -> bool) {
    var section := |text| / SECTION;
    && section * SECTION < 1 + |text| <= section * SECTION + SECTION <= |before|
    && valid(CString(Published([0] + text, section, before)[1..] + behind))
  }

  /** If the first lines are too long already, so are all. */
  lemma TooLong(lines: seq<seq<byte>>, i: nat, before: seq<byte>, behind: seq<byte>, valid: seq<byte> -> bool)
    requires i <= |lines| && 1 + |Joined(lines[..i])| > |before|
    ensures !Uploadable(Joined(lines), before, behind, valid)
  {
    hide CString, Published;
    JoinedGrows(lines, i);
  }

  lemma {:induction false} JoinedGrows(lines: seq<seq<byte>>, i: nat)
    requires i <= |lines|
    ensures |Joined(lines[..i])| <= |Joined(lines)|
  {
    hide CString;
    if i == |lines| {
      assert lines[..i] == lines;
    } else {
      JoinedGrows(lines[..|lines| - 1], i);
      assert lines[..|lines| - 1][..i] == lines[..i];
    }
  }

  lemma SectionOf(n: nat, section: nat)
    requires section * SECTION < 1 + n <= section * SECTION + SECTION
    ensures section == n / SECTION
  {
  }
}
