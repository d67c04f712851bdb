/** The settings in EEPROM (CSavedSettings.cpp): saving writes cell by cell, and power may fail between any two
    cells. */
module SavedSettings {
  import opened Bytes

  const SIZE := 512
  const MAGIC: byte := 85

  type Cells = s: seq<byte> | |s| == SIZE witness seq(SIZE, _ => 0)

  /** The device, and everything it has held. */
  class Eeprom {
    var cells: Cells
    ghost var log: seq<Cells>

    constructor (cells: Cells)
      ensures this.cells == cells && log == []
    {
      this.cells, log := cells, [];
    }

    method Write(n: nat, b: byte)
      requires n < SIZE
      modifies this
      ensures cells == old(cells)[n := b] && log == old(log) + [cells]
    {
      cells := cells[n := b];
      log := log + [cells];
    }
  }

  /** Contents while settings are being saved: new up to some cell, old from there on. */
  ghost predicate Partly(s: Cells, before: Cells, after: Cells) {
    exists n: nat :: n <= SIZE && s == after[..n] + before[n..]
  }

  ghost predicate AllPartly(states: seq<Cells>, before: Cells, after: Cells) {
    forall i | 0 <= i < |states| :: Partly(states[i], before, after)
  }

  /** With the magic value in place of the first cell. */
  function Marked(defaults: Cells): Cells {
    defaults[0 := MAGIC]
  }

  function Unmarked(defaults: Cells): Cells {
    defaults[0 := 0]
  }

  /** Wherever power fails during initialisation: if the EEPROM then reads as initialised, it is untouched or
      complete. */
  ghost predicate CrashSafe(s: Cells, before: Cells, defaults: Cells) {
    s[0] == MAGIC ==> s == before || s == Marked(defaults)
  }

  lemma FirstSaveSafe(s: Cells, before: Cells, defaults: Cells)
    requires Partly(s, before, Unmarked(defaults))
    ensures CrashSafe(s, before, defaults)
  {
    var n: nat :| n <= SIZE && s == Unmarked(defaults)[..n] + before[n..];
    if n > 0 {
      assert s[0] == 0;
    }
  }

  lemma SecondSaveSafe(s: Cells, before: Cells, defaults: Cells)
    requires Partly(s, Unmarked(defaults), Marked(defaults))
    ensures CrashSafe(s, before, defaults)
  {
    var n: nat :| n <= SIZE && s == Marked(defaults)[..n] + Unmarked(defaults)[n..];
    if n > 0 {
      assert s == Marked(defaults);
    } else {
      assert s[0] == 0;
    }
  }

  class Settings {
    const eeprom: Eeprom
    var contents: Cells

    constructor (eeprom: Eeprom)
      ensures this.eeprom == eeprom
    {
      this.eeprom, contents := eeprom, seq(SIZE, _ => 0);
    }

    /** save: only cells that differ are written, in order; afterwards the EEPROM holds the settings. */
    method Save()
      modifies eeprom
      ensures eeprom.cells == contents && old(eeprom.log) <= eeprom.log
      ensures AllPartly(eeprom.log[|old(eeprom.log)|..], old(eeprom.cells), contents)
    {
      ghost var before, log := eeprom.cells, eeprom.log;
      for n := 0 to SIZE
        invariant eeprom.cells == contents[..n] + before[n..] && log <= eeprom.log
        invariant AllPartly(eeprom.log[|log|..], before, contents)
      {
        if eeprom.cells[n] != contents[n] {
          ghost var so := eeprom.log[|log|..];
          eeprom.Write(n, contents[n]);
          assert eeprom.cells == contents[..n + 1] + before[n + 1..];
          assert eeprom.log[|log|..] == so + [eeprom.cells];
        }
      }
    }

    /** eeprom_initialise: the defaults with a zero in the first cell, and then, separately, the magic value. */
    method EepromInitialise(defaults: Cells)
      modifies this`contents, eeprom
      ensures eeprom.cells == contents == defaults[0 := 85] && old(eeprom.log) <= eeprom.log
      ensures forall i | |old(eeprom.log)| <= i < |eeprom.log| :: CrashSafe(eeprom.log[i], old(eeprom.cells), defaults)
    {
      ghost var before, log := eeprom.cells, eeprom.log;
      contents := defaults[0 := 0];
      Save();
      ghost var middle := eeprom.log;
      contents := contents[0 := MAGIC];
      Save();
      assert contents == Marked(defaults);
      forall i | |log| <= i < |eeprom.log|
        ensures CrashSafe(eeprom.log[i], before, defaults)
      {
        if i < |middle| {
          assert eeprom.log[i] == middle[|log|..][i - |log|];
          FirstSaveSafe(eeprom.log[i], before, defaults);
        } else {
          assert eeprom.log[i] == eeprom.log[|middle|..][i - |middle|];
          SecondSaveSafe(eeprom.log[i], before, defaults);
        }
      }
    }

    /** The constructor: an EEPROM without the magic value is initialised, and the settings are read. */
    method Load(defaults: Cells)
      modifies this`contents, eeprom
      ensures old(eeprom.cells[0]) == MAGIC ==> eeprom.cells == old(eeprom.cells) && eeprom.log == old(eeprom.log)
      ensures old(eeprom.cells[0]) != MAGIC ==> eeprom.cells == defaults[0 := 85]
      ensures contents == eeprom.cells && contents[0] == MAGIC && old(eeprom.log) <= eeprom.log
      ensures forall i | |old(eeprom.log)| <= i < |eeprom.log| :: CrashSafe(eeprom.log[i], old(eeprom.cells), defaults)
    {
      if eeprom.cells[0] != MAGIC {
        EepromInitialise(defaults);
      }
      contents := eeprom.cells;
    }
  }

  /** A history of boots that are all cut short: each starts from what the one before has left. */
  ghost predicate CutShort(states: seq<Cells>, defaults: Cells) {
    forall i | 0 < i < |states| ::
      if states[i - 1][0] == MAGIC then states[i] == states[i - 1] else CrashSafe(states[i], states[i - 1], defaults)
  }

  /** However often initialisation of a blank EEPROM is cut short, the EEPROM never reads as initialised unless it
      is so completely; so the next boot that is not cut short (Load) ends with all defaults in place. */
  lemma {:induction false} NeverHalfInitialised(states: seq<Cells>, defaults: Cells, i: nat)
    requires CutShort(states, defaults) && i < |states| && states[0][0] != MAGIC
    ensures states[i][0] == MAGIC ==> states[i] == defaults[0 := 85]
  {
    if i > 0 {
      NeverHalfInitialised(states, defaults, i - 1);
    }
  }
}
