/** The update of both firmwares from the SD card, with power failing at any primitive step of any number of
    boots: the flag in EEPROM, the backups, and the copies (zc95Bootloader.c, zc624.c, CI2cSlave.cpp, zc95.cpp). */
module FirmwareUpdate {
  import opened Bytes
  import opened Options
  import opened NorFlash
  import opened BlockLink

  //
  // Backup and restore
  //

  /** Up to and including the last byte that is not blank. */
  function ContentSize(flash: seq<byte>): (n: nat)
    ensures n <= |flash| && (n > 0 ==> flash[n - 1] != 255)
    ensures forall i | n <= i < |flash| :: flash[i] == 255
  {
    if flash == [] then 0 else if flash[|flash| - 1] != 255 then |flash| else ContentSize(flash[..|flash| - 1])
  }

  /** One block more than fill up completely. */
  function BlocksOf(size: nat): (blocks: nat)
    ensures blocks >= 1 && blocks * BLOCK - BLOCK <= size < blocks * BLOCK
  {
    size / BLOCK + 1
  }

  /** A difference of pointers as a 32-bit number without sign. */
  function Unsigned(n: int): nat {
    n % 0x1_0000_0000
  }

  lemma UnsignedSmall(n: nat)
    requires n < 0x1_0000_0000
    ensures Unsigned(n) == n
  {
  }

  /** CI2cSlave::set_fw_block_count, given what lies below the firmware region. Scanning goes on below it when the
      region is blank, and the unsigned difference then wraps. */
  method FwBlockCount(below: seq<byte>, flash: seq<byte>) returns (blocks: nat)
    requires exists i :: 0 <= i < |below| && below[i] != 255
    requires |below| + |flash| < 0x1_0000_0000
    ensures ContentSize(flash) > 0 ==> blocks == BlocksOf(ContentSize(flash)) % 0x1_0000
    ensures ContentSize(flash) == 0 ==>
            blocks == BlocksOf(Unsigned(ContentSize(below) - |below|)) % 0x1_0000
  {
    hide ContentSize, BlocksOf, Unsigned;
    var all := below + flash;
    var p := |all| - 1;
    while all[p] == 255
      invariant 0 <= p < |all| && forall i | p < i < |all| :: all[i] == 255
      decreases p
    {
      assert p > 0 by {
        var i :| 0 <= i < |below| && below[i] != 255;
        assert all[i] != 255;
      }
      p := p - 1;
    }
    var fwSize := Unsigned(p + 1 - |below|);
    blocks := BlocksOf(fwSize) % 0x1_0000;
    ScannedTo(below, flash, p);
    if p >= |below| {
      UnsignedSmall(p + 1 - |below|);
    }
  }

  lemma ScannedTo(below: seq<byte>, flash: seq<byte>, p: nat)
    requires p < |below + flash| && (below + flash)[p] != 255
    requires forall i | p < i < |below + flash| :: (below + flash)[i] == 255
    ensures if p >= |below| then ContentSize(flash) == p - |below| + 1
            else ContentSize(flash) == 0 && ContentSize(below) == p + 1
  {
    hide ContentSize;
    assert forall i | 0 <= i < |flash| :: flash[i] == (below + flash)[|below| + i];
    assert forall i | 0 <= i < |below| :: below[i] == (below + flash)[i];
    ContentSizeIs(flash, if p >= |below| then p - |below| + 1 else 0);
    if p < |below| {
      ContentSizeIs(below, p + 1);
    }
  }

  lemma {:induction false} ContentSizeIs(flash: seq<byte>, n: nat)
    requires n <= |flash| && (n > 0 ==> flash[n - 1] != 255) && forall i | n <= i < |flash| :: flash[i] == 255
    ensures ContentSize(flash) == n
  {
    if n < |flash| {
      ContentSizeIs(flash[..|flash| - 1], n);
    }
  }

  /** The zc624's firmware as backed up: whole blocks of 128 bytes. */
  function Backup624(flash: seq<byte>, blocks: nat): seq<byte>
    requires blocks * BLOCK <= |flash|
  {
    flash[..blocks * BLOCK]
  }

  /** What a complete copy of a file leaves in flash. */
  function Installed(file: seq<byte>, count: nat): (r: seq<byte>)
    requires PageCount(|file|) <= count
    ensures |r| == count * PAGE && file <= r
  {
    Padded(file) + Blank(count * PAGE - |Padded(file)|)
  }

  /** What sending a file to the zc624 leaves there. */
  function Transferred(file: seq<byte>, count: nat): (r: seq<byte>)
    requires PageCount(|file|) <= count && count >= 1
    ensures |r| == count * PAGE && (|file| > BLOCK ==> file <= r)
  {
    if |file| > BLOCK then Installed(file, count) else Filled(PAGE, 0) + Blank(count * PAGE - PAGE)
  }

  /** Restoring a backup of the zc624 gives back the flash just when the number of blocks is even; otherwise 128
      bytes behind the last block, blank before, are zeros. The firmware itself, if longer than a block, always
      comes back. */
  lemma RestoreBackup624(flash: seq<byte>, blocks: nat, m: nat, count: nat)
    requires |flash| == count * PAGE && blocks * BLOCK - BLOCK <= ContentSize(flash) < blocks * BLOCK <= |flash|
    requires blocks == 2 * m || blocks == 2 * m - 1
    ensures PageCount(blocks * BLOCK) == m <= count && count >= 1
    ensures Transferred(Backup624(flash, blocks), count) == flash <==> blocks == 2 * m
    ensures ContentSize(flash) >= BLOCK ==> flash[..ContentSize(flash)] <= Transferred(Backup624(flash, blocks), count)
  {
    hide ContentSize, Installed, PageCount, Backup624;
    var file, size := Backup624(flash, blocks), ContentSize(flash);
    assert PageCount(blocks * BLOCK) == m;
    BackupLength(flash, blocks);
    if blocks > 1 {
      assert flash[..size] <= file by {
        assert flash[..blocks * BLOCK][..size] == flash[..size];
      }
      PrefixOfPrefix(flash[..size], file, Installed(file, count));
    }
    if blocks == 2 * m {
      WholePages(flash, m, count);
    } else if blocks > 1 {
      ZerosBehind(file, m, count);
      assert flash[blocks * BLOCK] == 255;
    } else {
      assert flash[BLOCK] == 255;
    }
  }

  /** For instance, 300 bytes take three blocks: byte 384 is blank before, and zero after. */
  lemma OddBackupDiffers(flash: seq<byte>)
    requires flash == seq(2 * PAGE, i => if i < 300 then 1 else 255)
    ensures ContentSize(flash) == 300 && PageCount(|Backup624(flash, 3)|) == 2
    ensures Transferred(Backup624(flash, 3), 2) != flash
  {
    hide Transferred;
    ContentSizeIs(flash, 300);
    RestoreBackup624(flash, 3, 2, 2);
    BackupLength(flash, 3);
  }

  /** A flash whose last byte is programmed counts one block more than there is: the backup reads past the region, and
      takes a page more than the flash has. */
  lemma FullFlash(flash: seq<byte>, count: nat)
    requires |flash| == count * PAGE && count >= 1 && flash[|flash| - 1] != 255
    ensures ContentSize(flash) == |flash| && BlocksOf(ContentSize(flash)) * BLOCK == |flash| + BLOCK
    ensures !Backable(flash) && PageCount(|flash| + BLOCK) == count + 1
  {
    hide ContentSize, BlocksOf, PageCount;
    ContentSizeIs(flash, |flash|);
    BlocksOfBlocks(2 * count);
    PagesOf(count);
  }

  lemma BlocksOfBlocks(k: nat)
    ensures BlocksOf(k * BLOCK) == k + 1
  {
  }

  lemma PagesOf(n: nat)
    ensures PageCount(n * PAGE + BLOCK) == n + 1
  {
  }

  /** And no other is left out. */
  lemma OnlyFullFlash(flash: seq<byte>, count: nat)
    requires |flash| == count * PAGE && count >= 1
    ensures Backable(flash) <==> flash[|flash| - 1] == 255
  {
    if flash[|flash| - 1] != 255 {
      FullFlash(flash, count);
    } else {
      ContentBelow(flash);
      assert |flash| == 2 * count * BLOCK;
    }
  }

  lemma ContentBelow(flash: seq<byte>)
    requires flash != [] && flash[|flash| - 1] == 255
    ensures ContentSize(flash) < |flash|
  {
  }

  lemma BackupLength(flash: seq<byte>, blocks: nat)
    requires blocks * BLOCK <= |flash|
    ensures Backup624(flash, blocks) == flash[..blocks * BLOCK]
  {
  }

  lemma WholePages(flash: seq<byte>, m: nat, count: nat)
    requires |flash| == count * PAGE && m <= count && forall i | m * PAGE <= i < |flash| :: flash[i] == 255
    ensures Installed(flash[..m * PAGE], count) == flash
  {
    var file := flash[..m * PAGE];
    assert Padded(file) == file;
    assert Blank(count * PAGE - |file|) == flash[m * PAGE..];
  }

  lemma ZerosBehind(file: seq<byte>, m: nat, count: nat)
    requires |file| == m * PAGE - BLOCK && 1 <= m <= count
    ensures Installed(file, count)[|file|] == 0
  {
  }

  lemma PrefixOfPrefix(a: seq<byte>, b: seq<byte>, c: seq<byte>)
    requires a <= b && b <= c
    ensures a <= c
  {
  }

  /** With an odd number of blocks the zeros count as firmware the next time: there are two more blocks then,
      again an odd number. Every backup and restore adds a page. */
  lemma RestoredBackupGrows(flash: seq<byte>, blocks: nat, m: nat, count: nat)
    requires |flash| == count * PAGE && blocks * BLOCK - BLOCK <= ContentSize(flash) < blocks * BLOCK <= |flash|
    requires blocks == 2 * m + 1 && m >= 1
    ensures PageCount(blocks * BLOCK) <= count
    ensures ContentSize(Transferred(Backup624(flash, blocks), count)) == (blocks + 1) * BLOCK
  {
    var file := Backup624(flash, blocks);
    var r, size := Transferred(file, count), (blocks + 1) * BLOCK;
    RestoreBackup624(flash, blocks, m + 1, count);
    assert PageCount(|file|) == m + 1 && size == (m + 1) * PAGE;
    assert r[size - 1] == 0;
    assert forall i | size <= i < |r| :: r[i] == 255;
    ContentSizeIs(r, size);
  }

  //
  // The machine
  //

  datatype Flag = Normal | RestorePending | RestorePrev

  /** A zc95 firmware and the zc624 firmware that goes with it. */
  datatype Pair = Pair(fw95: seq<byte>, fw624: seq<byte>)

  /** All that survives a power failure. */
  datatype World = Current(flag: Flag, flash95: seq<byte>, flash624: seq<byte>, pend: Pair, prev: Pair,
                         pages95: nat, pages624: nat)

  /** The primitive steps of a boot. While a backup is written its file may hold anything. */
  datatype Step = SetFlag(flag: Flag) | Step95(op: Op) | Step624(op: Op) | Prev95(contents: seq<byte>)
                | Prev624(contents: seq<byte>)

  predicate CanStep(w: World, s: Step) {
    (s.Step95? ==> Fits(s.op, |w.flash95|)) && (s.Step624? ==> Fits(s.op, |w.flash624|))
  }

  function After(w: World, s: Step): World
    requires CanStep(w, s)
  {
    match s
    case SetFlag(flag) => w.(flag := flag)
    case Step95(op) => w.(flash95 := Apply(w.flash95, op))
    case Step624(op) => w.(flash624 := Apply(w.flash624, op))
    case Prev95(contents) => w.(prev := w.prev.(fw95 := contents))
    case Prev624(contents) => w.(prev := w.prev.(fw624 := contents))
  }

  predicate CanRun(w: World, steps: seq<Step>) {
    forall i | 0 <= i < |steps| :: CanStep(w, steps[i])
  }

  function AfterAll(w: World, steps: seq<Step>): (r: World)
    requires CanRun(w, steps)
    ensures |r.flash95| == |w.flash95| && |r.flash624| == |w.flash624|
    ensures r.pend == w.pend && r.pages95 == w.pages95 && r.pages624 == w.pages624
  {
    if |steps| == 0 then w else After(AfterAll(w, steps[..|steps| - 1]), steps[|steps| - 1])
  }

  lemma {:induction false} AfterAppend(w: World, a: seq<Step>, b: seq<Step>)
    requires CanRun(w, a) && CanRun(w, b)
    ensures CanRun(AfterAll(w, a), b) && CanRun(w, a + b) && AfterAll(w, a + b) == AfterAll(AfterAll(w, a), b)
  {
    if |b| == 0 {
      assert a + b == a;
    } else {
      var s := a + b;
      assert s[..|s| - 1] == a + b[..|b| - 1] && s[|s| - 1] == b[|b| - 1];
      AfterAppend(w, a, b[..|b| - 1]);
    }
  }

  function On95(ops: seq<Op>): (r: seq<Step>)
    ensures |r| == |ops|
  {
    seq(|ops|, i requires 0 <= i < |ops| => Step95(ops[i]))
  }

  function On624(ops: seq<Op>): (r: seq<Step>)
    ensures |r| == |ops|
  {
    seq(|ops|, i requires 0 <= i < |ops| => Step624(ops[i]))
  }

  lemma {:induction false} RunOn95(w: World, ops: seq<Op>)
    requires AllFit(ops, |w.flash95|)
    ensures CanRun(w, On95(ops)) && AfterAll(w, On95(ops)) == w.(flash95 := Run(w.flash95, ops))
  {
    if |ops| > 0 {
      RunOn95(w, ops[..|ops| - 1]);
      assert On95(ops)[..|ops| - 1] == On95(ops[..|ops| - 1]);
    }
  }

  lemma {:induction false} RunOn624(w: World, ops: seq<Op>)
    requires AllFit(ops, |w.flash624|)
    ensures CanRun(w, On624(ops)) && AfterAll(w, On624(ops)) == w.(flash624 := Run(w.flash624, ops))
  {
    if |ops| > 0 {
      RunOn624(w, ops[..|ops| - 1]);
      assert On624(ops)[..|ops| - 1] == On624(ops[..|ops| - 1]);
    }
  }

  //
  // A boot
  //

  /** The steps of a complete transfer to the zc624. */
  function SendOps(file: seq<byte>): seq<Op> {
    [Erase] + StreamOps(Blocked(file), |Blocked(file)| / PAGE)
  }

  /** An attempt to write an image: all of its steps if it reports success, and otherwise all of them or steps that
      stop short of the first page. */
  predicate Attempt(ops: seq<Op>, complete: seq<Op>, ok: bool) {
    ops == complete || (!ok && Incomplete(ops))
  }

  /** An attempt to write a backup. */
  predicate BackupOf95(steps: seq<Step>, contents: seq<byte>, ok: bool) {
    && (forall i | 0 <= i < |steps| :: steps[i].Prev95?)
    && (ok ==> steps != [] && steps[|steps| - 1].contents == contents)
  }

  predicate BackupOf624(steps: seq<Step>, contents: seq<byte>, ok: bool) {
    && (forall i | 0 <= i < |steps| :: steps[i].Prev624?)
    && (ok ==> steps != [] && steps[|steps| - 1].contents == contents)
  }

  /** How a boot goes when the power stays on: what fails on the way, and the steps of each part. */
  datatype Course = Course(backup95: seq<Step>, ok95: bool, backup624: seq<Step>, ok624: bool,
                           copy: seq<Op>, copied: bool, send: seq<Op>, sent: bool)

  /** The parts of check_eeprom_flag as the flag has it. A backup of the zc624 assumes that the last byte of its
      flash is blank. */
  predicate Follows(w: World, c: Course) {
    match w.flag
    case Normal => true
    case RestorePending =>
      && BackupOf95(c.backup95, w.flash95, c.ok95)
      && Backable(w.flash624) && BackupOf624(c.backup624, BackedUp624(w.flash624), c.ok624)
      && Attempt(c.copy, CopyOps(w.pend.fw95, PageCount(|w.pend.fw95|)), c.copied)
      && Attempt(c.send, SendOps(w.pend.fw624), c.sent)
      && AllFit(c.copy, |w.flash95|) && AllFit(c.send, |w.flash624|)
    case RestorePrev =>
      && Attempt(c.copy, CopyOps(w.prev.fw95, PageCount(|w.prev.fw95|)), c.copied)
      && Attempt(c.send, SendOps(w.prev.fw624), c.sent)
      && AllFit(c.copy, |w.flash95|) && AllFit(c.send, |w.flash624|)
  }

  predicate Backable(flash: seq<byte>) {
    BlocksOf(ContentSize(flash)) * BLOCK <= |flash|
  }

  function BackedUp624(flash: seq<byte>): seq<byte>
    requires Backable(flash)
  {
    Backup624(flash, BlocksOf(ContentSize(flash)))
  }

  /** Writing both images: in an update the zc624 has its turn only after the zc95, in a restore always. */
  function WriteSteps(c: Course, sendAnyway: bool): seq<Step> {
    On95(c.copy) + if c.copied || sendAnyway then On624(c.send) else []
  }

  function AfterBackups(c: Course): seq<Step> {
    if c.ok624 then [SetFlag(RestorePrev)] + WriteSteps(c, false) else []
  }

  function AfterBackup95(c: Course): seq<Step> {
    if c.ok95 then c.backup624 + AfterBackups(c) else []
  }

  /** check_eeprom_flag: its steps, and whether it ends in an attempt to launch. */
  function BootSteps(w: World, c: Course): seq<Step> {
    match w.flag
    case Normal => []
    case RestorePending => [SetFlag(Normal)] + (c.backup95 + AfterBackup95(c))
    case RestorePrev => WriteSteps(c, true)
  }

  predicate Launches(w: World, c: Course) {
    match w.flag
    case Normal => true
    case RestorePending => !c.ok95 || !c.ok624 || (c.copied && c.sent)
    case RestorePrev => c.copied && c.sent
  }

  //
  // What holds at every step
  //

  const MAGIC95: seq<byte> := [0x35, 0x39, 0x43, 0x5A]
  const MAGIC624: seq<byte> := [0x34, 0x32, 0x36, 0x7A]

  /** The backup of the zc95 writes this much at a time. */
  const PORTION := 1024

  /** Firmware as it is released: marked, the zc624's longer than a block and ending in something. */
  predicate Proper(p: Pair) {
    && MAGIC95 <= p.fw95 && MAGIC624 <= p.fw624
    && |p.fw624| > BLOCK && p.fw624[|p.fw624| - 1] != 255
  }

  predicate FitsIn(p: Pair, w: World) {
    PageCount(|p.fw95|) <= w.pages95 && PageCount(|p.fw624|) <= w.pages624
  }

  /** Both boards hold this pair, complete. */
  predicate Holds(w: World, p: Pair) {
    p.fw95 <= w.flash95 && p.fw624 <= w.flash624
  }

  /** Copying the backups brings this pair back. */
  predicate Restorable(w: World, p: Pair)
    requires w.pages624 >= 1
  {
    && FitsIn(w.prev, w) && w.prev.fw95 != [] && |w.prev.fw624| > BLOCK
    && p.fw95 <= Installed(w.prev.fw95, w.pages95) && p.fw624 <= Transferred(w.prev.fw624, w.pages624)
  }

  /** Flash that passes for firmware is a complete image: the good one, or a complete copy of the pending file or
      of the backup. */
  predicate NeverHalf(flash: seq<byte>, magic: seq<byte>, good: seq<byte>, pend: seq<byte>, prev: seq<byte>, pages: nat)
    requires PageCount(|pend|) <= pages && PageCount(|prev|) <= pages
  {
    magic <= flash ==> good <= flash || flash == Installed(pend, pages) || flash == Installed(prev, pages)
  }

  predicate Inv(w: World, good: Pair) {
    && |w.flash95| == w.pages95 * PAGE && |w.flash624| == w.pages624 * PAGE && w.pages95 >= 1 && w.pages624 >= 1
    && FitsIn(w.pend, w) && (w.flag != Normal ==> Proper(w.pend))
    && (w.flag != RestorePrev ==> Holds(w, good))
    && (w.flag == RestorePrev ==>
          && Restorable(w, good)
          && NeverHalf(w.flash95, MAGIC95, good.fw95, w.pend.fw95, w.prev.fw95, w.pages95)
          && NeverHalf(w.flash624, MAGIC624, good.fw624, w.pend.fw624, w.prev.fw624, w.pages624))
  }

  /** The invariant holds before, between and after the steps. */
  ghost predicate Safe(w: World, steps: seq<Step>, good: Pair)
    ensures Safe(w, steps, good) ==> CanRun(w, steps)
  {
    CanRun(w, steps) && forall k | 0 <= k <= |steps| :: Inv(AfterAll(w, steps[..k]), good)
  }

  lemma SafeAppend(w: World, a: seq<Step>, b: seq<Step>, good: Pair)
    requires Safe(w, a, good) && Safe(AfterAll(w, a), b, good)
    ensures Safe(w, a + b, good) && AfterAll(w, a + b) == AfterAll(AfterAll(w, a), b)
  {
    hide Inv, AfterAll;
    CanRunBack(w, a, b);
    AfterAppend(w, a, b);
    forall k | 0 <= k <= |a + b|
      ensures Inv(AfterAll(w, (a + b)[..k]), good)
    {
      if k <= |a| {
        assert (a + b)[..k] == a[..k];
      } else {
        var m := k - |a|;
        assert (a + b)[..k] == a + b[..m];
        CanRunTake(w, b, m);
        AfterAppend(w, a, b[..m]);
      }
    }
  }

  lemma CanRunBack(w: World, a: seq<Step>, b: seq<Step>)
    requires CanRun(w, a) && CanRun(AfterAll(w, a), b)
    ensures CanRun(w, b) && CanRun(w, a + b)
  {
  }

  lemma CanRunTake(w: World, b: seq<Step>, m: nat)
    requires CanRun(w, b) && m <= |b|
    ensures CanRun(w, b[..m])
  {
  }

  /** A single step. */
  lemma SafeStep(w: World, s: Step, good: Pair)
    requires Inv(w, good) && CanStep(w, s) && Inv(After(w, s), good)
    ensures Safe(w, [s], good) && AfterAll(w, [s]) == After(w, s)
  {
    hide Inv;
    assert [s][..0] == [] && [s][..1] == [s];
  }

  lemma {:induction false} Run95(w: World, steps: seq<Step>)
    requires forall i | 0 <= i < |steps| :: steps[i].Prev95?
    ensures CanRun(w, steps)
    ensures AfterAll(w, steps) ==
            w.(prev := w.prev.(fw95 := if steps == [] then w.prev.fw95 else steps[|steps| - 1].contents))
  {
    if |steps| > 0 {
      Run95(w, steps[..|steps| - 1]);
    }
  }

  lemma {:induction false} Run624(w: World, steps: seq<Step>)
    requires forall i | 0 <= i < |steps| :: steps[i].Prev624?
    ensures CanRun(w, steps)
    ensures AfterAll(w, steps) ==
            w.(prev := w.prev.(fw624 := if steps == [] then w.prev.fw624 else steps[|steps| - 1].contents))
  {
    if |steps| > 0 {
      Run624(w, steps[..|steps| - 1]);
    }
  }

  /** While the flag is NORMAL nothing depends on the backups. */
  lemma BackupFree(w: World, prev: Pair, good: Pair)
    requires Inv(w, good) && w.flag == Normal
    ensures Inv(w.(prev := prev), good)
  {
  }

  lemma Backup95Safe(w: World, steps: seq<Step>, contents: seq<byte>, ok: bool, good: Pair)
    requires Inv(w, good) && w.flag == Normal && BackupOf95(steps, contents, ok)
    ensures Safe(w, steps, good) && Inv(AfterAll(w, steps), good)
    ensures AfterAll(w, steps) == w.(prev := AfterAll(w, steps).prev) && AfterAll(w, steps).prev.fw624 == w.prev.fw624
    ensures ok ==> AfterAll(w, steps).prev.fw95 == contents
  {
    hide Inv, AfterAll;
    Run95(w, steps);
    forall k | 0 <= k <= |steps|
      ensures Inv(AfterAll(w, steps[..k]), good)
    {
      Run95(w, steps[..k]);
      BackupFree(w, AfterAll(w, steps[..k]).prev, good);
    }
    BackupFree(w, AfterAll(w, steps).prev, good);
  }

  lemma Backup624Safe(w: World, steps: seq<Step>, contents: seq<byte>, ok: bool, good: Pair)
    requires Inv(w, good) && w.flag == Normal && BackupOf624(steps, contents, ok)
    ensures Safe(w, steps, good) && Inv(AfterAll(w, steps), good)
    ensures AfterAll(w, steps) == w.(prev := AfterAll(w, steps).prev) && AfterAll(w, steps).prev.fw95 == w.prev.fw95
    ensures ok ==> AfterAll(w, steps).prev.fw624 == contents
  {
    hide Inv, AfterAll;
    Run624(w, steps);
    forall k | 0 <= k <= |steps|
      ensures Inv(AfterAll(w, steps[..k]), good)
    {
      Run624(w, steps[..k]);
      BackupFree(w, AfterAll(w, steps[..k]).prev, good);
    }
    BackupFree(w, AfterAll(w, steps).prev, good);
  }

  //
  // Writing images
  //

  /** Until its first page is written, flash does not pass for firmware. */
  lemma {:induction false} IncompleteBlank(cells: seq<byte>, ops: seq<Op>)
    requires AllFit(ops, |cells|) && |cells| >= PAGE && Incomplete(ops) && ops != []
    ensures Run(cells, ops)[..PAGE] == Blank(PAGE)
  {
    var n := |ops| - 1;
    if n == 0 {
      assert ops[..n] == [];
      assert Blank(|cells|)[..PAGE] == Blank(PAGE);
    } else {
      assert ops[..n][0] == ops[0];
      IncompleteBlank(cells, ops[..n]);
    }
  }

  lemma CopyRun(cells: seq<byte>, file: seq<byte>, pages: nat)
    requires |cells| == pages * PAGE && PageCount(|file|) <= pages && file != []
    ensures AllFit(CopyOps(file, PageCount(|file|)), |cells|)
    ensures Run(cells, CopyOps(file, PageCount(|file|))) == Installed(file, pages)
  {
    hide Run, Apply;
    var n := PageCount(|file|);
    var image := ImageOps(Padded(file), n);
    ImageRun(Padded(file), n, |cells|);
    RunAppend(cells, [Erase], image);
    OneStep(cells, Erase);
    EraseBlank(cells);
  }

  lemma EraseBlank(cells: seq<byte>)
    ensures Apply(cells, Erase) == Blank(|cells|)
  {
  }

  /** The flash after some of the steps of an attempt: as before, without a first page, or complete. */
  lemma AttemptAt(cells: seq<byte>, file: seq<byte>, pages: nat, ops: seq<Op>, ok: bool, k: nat)
    requires |cells| == pages * PAGE && pages >= 1 && PageCount(|file|) <= pages && file != []
    requires Attempt(ops, CopyOps(file, PageCount(|file|)), ok) && AllFit(ops, |cells|) && k <= |ops|
    ensures
      var now := Run(cells, ops[..k]);
      now == cells || now[..PAGE] == Blank(PAGE) || now == Installed(file, pages)
    ensures ok ==> Run(cells, ops) == Installed(file, pages)
  {
    hide Run, CopyOps, Blank;
    var complete := CopyOps(file, PageCount(|file|));
    CopyRun(cells, file, pages);
    assert ops[..|ops|] == ops;
    if k == 0 {
      NoSteps(cells);
    } else if k < |ops| || ops != complete {
      if ops == complete {
        CopyCutShort(file, PageCount(|file|), k);
      }
      IncompleteBlank(cells, ops[..k]);
    }
  }

  lemma NoSteps(cells: seq<byte>)
    ensures Run(cells, []) == cells
  {
  }

  lemma SendIsCopy(file: seq<byte>)
    requires |file| > BLOCK
    ensures SendOps(file) == CopyOps(file, PageCount(|file|))
  {
    hide Padded, Blocked, StreamOps, ImageOps;
    PaddedBlocks(file);
    var s := Blocked(file);
    StreamIsImage(s, |s| / PAGE);
  }

  lemma StillNeverHalf(before: seq<byte>, now: seq<byte>, magic: seq<byte>, good: seq<byte>, pend: seq<byte>,
                       prev: seq<byte>,
                       pages: nat)
    requires PageCount(|pend|) <= pages && PageCount(|prev|) <= pages && magic != [] && magic[0] != 255
    requires NeverHalf(before, magic, good, pend, prev, pages) && |now| >= PAGE
    requires now == before || now[..PAGE] == Blank(PAGE) || now == Installed(pend, pages)
             || now == Installed(prev, pages)
    ensures NeverHalf(now, magic, good, pend, prev, pages)
  {
    hide Installed, Blank;
    if now[..PAGE] == Blank(PAGE) {
      BlankByte();
      assert now[0] == now[..PAGE][0];
    }
  }

  lemma BlankByte()
    ensures |Blank(PAGE)| == PAGE && Blank(PAGE)[0] == 255
  {
  }

  lemma Copy95Safe(w: World, ops: seq<Op>, ok: bool, p: Pair, good: Pair)
    requires Inv(w, good) && w.flag == RestorePrev && (p == w.pend || p == w.prev)
    requires Attempt(ops, CopyOps(p.fw95, PageCount(|p.fw95|)), ok) && AllFit(ops, |w.flash95|)
    ensures Safe(w, On95(ops), good) && Inv(AfterAll(w, On95(ops)), good)
    ensures
      var r := AfterAll(w, On95(ops));
      r == w.(flash95 := r.flash95) && (ok ==> r.flash95 == Installed(p.fw95, w.pages95))
  {
    hide Run, CopyOps, Installed, AfterAll, AllFit, NeverHalf, Transferred, Attempt, PageCount;
    RunOn95(w, ops);
    forall k | 0 <= k <= |ops|
      ensures Inv(AfterAll(w, On95(ops)[..k]), good)
    {
      AllFitTake(ops, k, |w.flash95|);
      RunOn95(w, ops[..k]);
      assert On95(ops)[..k] == On95(ops[..k]);
      AttemptAt(w.flash95, p.fw95, w.pages95, ops, ok, k);
      StillNeverHalf(w.flash95, Run(w.flash95, ops[..k]), MAGIC95, good.fw95, w.pend.fw95, w.prev.fw95, w.pages95);
    }
    assert ops[..|ops|] == ops && On95(ops)[..|ops|] == On95(ops);
    AttemptAt(w.flash95, p.fw95, w.pages95, ops, ok, |ops|);
  }

  lemma AllFitTake(ops: seq<Op>, k: nat, size: nat)
    requires AllFit(ops, size) && k <= |ops|
    ensures AllFit(ops[..k], size)
  {
  }

  lemma Send624Safe(w: World, ops: seq<Op>, ok: bool, p: Pair, good: Pair)
    requires Inv(w, good) && w.flag == RestorePrev && (p == w.pend || p == w.prev)
    requires Attempt(ops, SendOps(p.fw624), ok) && AllFit(ops, |w.flash624|)
    ensures Safe(w, On624(ops), good) && Inv(AfterAll(w, On624(ops)), good)
    ensures
      var r := AfterAll(w, On624(ops));
      r == w.(flash624 := r.flash624) && (ok ==> r.flash624 == Installed(p.fw624, w.pages624))
  {
    hide Run, CopyOps, SendOps, Installed, AfterAll, AllFit, NeverHalf, Attempt, PageCount;
    SendIsCopy(p.fw624);
    RunOn624(w, ops);
    forall k | 0 <= k <= |ops|
      ensures Inv(AfterAll(w, On624(ops)[..k]), good)
    {
      AllFitTake(ops, k, |w.flash624|);
      RunOn624(w, ops[..k]);
      assert On624(ops)[..k] == On624(ops[..k]);
      AttemptAt(w.flash624, p.fw624, w.pages624, ops, ok, k);
      StillNeverHalf(w.flash624, Run(w.flash624, ops[..k]), MAGIC624, good.fw624, w.pend.fw624, w.prev.fw624,
                     w.pages624);
    }
    assert ops[..|ops|] == ops && On624(ops)[..|ops|] == On624(ops);
    AttemptAt(w.flash624, p.fw624, w.pages624, ops, ok, |ops|);
  }

  lemma WriteSafe(w: World, c: Course, sendAnyway: bool, p: Pair, good: Pair)
    requires Inv(w, good) && w.flag == RestorePrev && (p == w.pend || p == w.prev)
    requires Attempt(c.copy, CopyOps(p.fw95, PageCount(|p.fw95|)), c.copied)
    requires Attempt(c.send, SendOps(p.fw624), c.sent)
    requires AllFit(c.copy, |w.flash95|) && AllFit(c.send, |w.flash624|)
    ensures Safe(w, WriteSteps(c, sendAnyway), good)
    ensures
      var r := AfterAll(w, WriteSteps(c, sendAnyway));
      && r.flag == RestorePrev && r.pend == w.pend && r.prev == w.prev && Inv(r, good)
      && (c.copied && c.sent ==>
            r.flash95 == Installed(p.fw95, w.pages95) && r.flash624 == Installed(p.fw624, w.pages624))
  {
    hide CanRun, AfterAll, Attempt, CopyOps, SendOps, AllFit;
    Copy95Safe(w, c.copy, c.copied, p, good);
    var w1 := AfterAll(w, On95(c.copy));
    if c.copied || sendAnyway {
      Send624Safe(w1, c.send, c.sent, p, good);
      SafeAppend(w, On95(c.copy), On624(c.send), good);
    } else {
      assert On95(c.copy) + [] == On95(c.copy);
    }
  }

  //
  // A boot keeps the invariant
  //

  /** Once both backups are complete, the flag may say that they are to be restored. */
  lemma BackupsRestorable(w: World, good: Pair)
    requires Inv(w, good) && w.flag == Normal && Proper(good) && Proper(w.pend) && Backable(w.flash624)
    requires w.prev == Pair(w.flash95, BackedUp624(w.flash624))
    ensures Inv(w.(flag := RestorePrev), good)
  {
    hide NeverHalf, MAGIC95, MAGIC624, ContentSize, Transferred, Installed, BlocksOf;
    var size, blocks := ContentSize(w.flash624), BlocksOf(ContentSize(w.flash624));
    assert size >= |good.fw624| by {
      assert w.flash624[|good.fw624| - 1] == good.fw624[|good.fw624| - 1];
    }
    RestoreBackup624(w.flash624, blocks, (blocks + 1) / 2, w.pages624);
    assert good.fw624 <= w.flash624[..size];
    PrefixOfPrefix(good.fw624, w.flash624[..size], Transferred(w.prev.fw624, w.pages624));
    GoodNeverHalf(w, good);
  }

  lemma GoodNeverHalf(w: World, good: Pair)
    requires Holds(w, good)
    requires FitsIn(w.pend, w) && FitsIn(w.prev, w)
    ensures NeverHalf(w.flash95, MAGIC95, good.fw95, w.pend.fw95, w.prev.fw95, w.pages95)
    ensures NeverHalf(w.flash624, MAGIC624, good.fw624, w.pend.fw624, w.prev.fw624, w.pages624)
  {
  }

  /** The pair that is launched at the end of a boot. */
  function Launched(w: World, c: Course, good: Pair): Pair {
    if w.flag == RestorePending && c.ok95 && c.ok624 then w.pend else good
  }

  /** From SetFlag(RestorePrev) on, in an update. */
  lemma UpdateSafe(w: World, c: Course, good: Pair)
    requires Inv(w, good) && w.flag == Normal && Proper(good) && Proper(w.pend) && Backable(w.flash624)
    requires w.prev == Pair(w.flash95, BackedUp624(w.flash624))
    requires Attempt(c.copy, CopyOps(w.pend.fw95, PageCount(|w.pend.fw95|)), c.copied)
    requires Attempt(c.send, SendOps(w.pend.fw624), c.sent)
    requires AllFit(c.copy, |w.flash95|) && AllFit(c.send, |w.flash624|)
    ensures
      var steps := [SetFlag(RestorePrev)] + WriteSteps(c, false);
      && Safe(w, steps, good)
      && AfterAll(w, steps).flag == RestorePrev && AfterAll(w, steps).pend == w.pend
      && (c.copied && c.sent ==> Holds(AfterAll(w, steps), w.pend))
  {
    hide AfterAll, Attempt, CopyOps, SendOps, AllFit, Inv, WriteSteps, BackedUp624, Backable, CanRun;
    BackupsRestorable(w, good);
    SafeStep(w, SetFlag(RestorePrev), good);
    var w1 := w.(flag := RestorePrev);
    WriteSafe(w1, c, false, w.pend, good);
    SafeAppend(w, [SetFlag(RestorePrev)], WriteSteps(c, false), good);
  }

  /** Everything after SetFlag(Normal) in an update. */
  lemma BackupThenUpdateSafe(w: World, c: Course, good: Pair)
    requires Inv(w, good) && w.flag == Normal && Proper(good) && Proper(w.pend)
    requires Follows(w.(flag := RestorePending), c)
    ensures
      var steps := c.backup95 + AfterBackup95(c);
      && Safe(w, steps, good) && AfterAll(w, steps).pend == w.pend
      && (AfterAll(w, steps).flag == RestorePrev <==> c.ok95 && c.ok624)
      && AfterAll(w, steps).flag != RestorePending
      && (c.ok95 && c.ok624 && c.copied && c.sent ==> Holds(AfterAll(w, steps), w.pend))
  {
    hide AfterAll, Attempt, CopyOps, SendOps, AllFit, Inv, WriteSteps, BackedUp624, Backable, CanRun, Safe, Holds,
         Proper, BackupOf95, BackupOf624;
    Backup95Safe(w, c.backup95, w.flash95, c.ok95, good);
    var w1 := AfterAll(w, c.backup95);
    if !c.ok95 {
      assert c.backup95 + [] == c.backup95;
    } else {
      Backup624Safe(w1, c.backup624, BackedUp624(w.flash624), c.ok624, good);
      var w2 := AfterAll(w1, c.backup624);
      if !c.ok624 {
        assert c.backup624 + [] == c.backup624;
      } else {
        assert w2.prev == Pair(w2.flash95, BackedUp624(w2.flash624));
        UpdateSafe(w2, c, good);
        SafeAppend(w1, c.backup624, AfterBackups(c), good);
      }
      SafeAppend(w, c.backup95, AfterBackup95(c), good);
    }
  }

  lemma LastIsSafe(w: World, steps: seq<Step>, good: Pair)
    requires Safe(w, steps, good)
    ensures Inv(AfterAll(w, steps), good)
  {
    assert steps[..|steps|] == steps;
  }

  lemma NothingTaken(w: World)
    ensures CanRun(w, []) && AfterAll(w, []) == w
  {
  }

  lemma RestoredHolds(w: World, r: World, good: Pair)
    requires w.pages624 >= 1 && Restorable(w, good)
    requires r.flash95 == Installed(w.prev.fw95, w.pages95) && r.flash624 == Installed(w.prev.fw624, w.pages624)
    ensures Holds(r, good)
  {
  }

  /** Every boot, whatever fails on the way, keeps the invariant at every step; and where it ends in a launch,
      both boards hold the launched pair, complete. */
  lemma BootSafe(w: World, c: Course, good: Pair)
    requires Inv(w, good) && Proper(good) && Follows(w, c)
    ensures Safe(w, BootSteps(w, c), good)
    ensures
      var r := AfterAll(w, BootSteps(w, c));
      && r.pend == w.pend && r.flag != RestorePending
      && (Launches(w, c) ==> Holds(r, Launched(w, c, good)))
      && (r.flag == RestorePrev || Launched(w, c, good) == good)
  {
    hide AfterAll, CanRun, WriteSteps, AfterBackup95, Proper, Attempt, CopyOps, SendOps, AllFit;
    match w.flag
    case Normal =>
      assert BootSteps(w, c)[..0] == BootSteps(w, c) == [];
      NothingTaken(w);
    case RestorePending =>
      var w1 := w.(flag := Normal);
      SafeStep(w, SetFlag(Normal), good);
      BackupThenUpdateSafe(w1, c, good);
      SafeAppend(w, [SetFlag(Normal)], c.backup95 + AfterBackup95(c), good);
      LastIsSafe(w1, c.backup95 + AfterBackup95(c), good);
    case RestorePrev =>
      WriteSafe(w, c, true, w.prev, good);
      if c.copied && c.sent {
        RestoredHolds(w, AfterAll(w, BootSteps(w, c)), good);
      }
  }

  //
  // Whole runs
  //

  /** The good pair is the one last known to work; running is the pair that runs, if any. */
  datatype System = System(w: World, good: Pair, running: Option<Pair>)

  /** Power is lost and comes back, and the boot that follows takes its first steps, or all of them. Running
      firmware starts by confirming itself (set_normal_bootloader_mode); later it may store a pending pair, and
      ask for it to be installed. */
  datatype Event = Boot(c: Course, cut: nat) | Confirm | StorePending(p: Pair) | Request

  predicate Enabled(s: System, e: Event) {
    match e
    case Boot(c, cut) => Follows(s.w, c) && cut <= |BootSteps(s.w, c)| && CanRun(s.w, BootSteps(s.w, c))
    case Confirm => s.running.Some? && s.w.flag != RestorePending
    case StorePending(p) => s.running.Some? && s.w.flag == Normal && FitsIn(p, s.w)
    case Request => s.running.Some? && s.w.flag == Normal && Proper(s.w.pend)
  }

  function Happens(s: System, e: Event): System
    requires Enabled(s, e)
  {
    match e
    case Boot(c, cut) =>
      var steps := BootSteps(s.w, c);
      var w := AfterAll(s.w, steps[..cut]);
      if cut == |steps| && Launches(s.w, c) && MAGIC95 <= w.flash95 then
        System(w, s.good, Some(Launched(s.w, c, s.good)))
      else
        System(w, s.good, None)
    case Confirm => System(s.w.(flag := Normal), s.running.value, s.running)
    case StorePending(p) => s.(w := s.w.(pend := p))
    case Request => s.(w := s.w.(flag := RestorePending))
  }

  predicate Sound(s: System) {
    && Inv(s.w, s.good) && Proper(s.good)
    && (s.running.Some? ==>
          Holds(s.w, s.running.value)
          && (s.running.value == s.good || (s.w.flag == RestorePrev && s.running.value == s.w.pend)))
  }

  lemma BootSound(s: System, c: Course, cut: nat)
    requires Sound(s) && Enabled(s, Boot(c, cut))
    ensures Sound(Happens(s, Boot(c, cut)))
  {
    hide Inv, Proper, Follows, BootSteps, Holds, CanRun, AfterAll;
    BootSafe(s.w, c, s.good);
    var steps := BootSteps(s.w, c);
    assert steps[..|steps|] == steps;
  }

  /** Each event keeps the system sound. */
  lemma EventSound(s: System, e: Event)
    requires Sound(s) && Enabled(s, e)
    ensures Sound(Happens(s, e))
  {
    match e
    case Boot(c, cut) =>
      BootSound(s, c, cut);
    case Confirm =>
      hide Proper, NeverHalf;
    case StorePending(p) =>
      hide Proper, NeverHalf;
    case Request =>
      hide NeverHalf;
  }

  /** The good pair changes only to the pair that an update is installing, and an update begins with a request. */
  lemma OnlyByRequest(s: System, e: Event)
    requires Sound(s) && Enabled(s, e)
    ensures Happens(s, e).good == s.good || (s.w.flag != Normal && Happens(s, e).good == s.w.pend)
    ensures Happens(s, e).w.flag != Normal ==>
              Happens(s, e).w.pend == s.w.pend && (s.w.flag != Normal || (e == Request && Proper(s.w.pend)))
  {
    hide Inv, Proper, Follows, BootSteps, Holds, Launches, Launched, CanRun, AfterAll;
    if e.Boot? && s.w.flag == Normal {
      NormalBoot(s.w, e.c);
    }
  }

  lemma NormalBoot(w: World, c: Course)
    requires w.flag == Normal
    ensures BootSteps(w, c) == [] && CanRun(w, []) && AfterAll(w, []) == w
  {
  }

  predicate Possible(s: System, events: seq<Event>)
    decreases |events|
  {
    events != [] ==> Enabled(s, events[0]) && Possible(Happens(s, events[0]), events[1..])
  }

  function Ending(s: System, events: seq<Event>): System
    requires Possible(s, events)
    decreases |events|
  {
    if events == [] then s else Ending(Happens(s, events[0]), events[1..])
  }

  /** The pairs whose installation is asked for in a run. */
  function Requested(s: System, events: seq<Event>): set<Pair>
    requires Possible(s, events)
    decreases |events|
  {
    if events == [] then {}
    else (if events[0].Request? then {s.w.pend} else {}) + Requested(Happens(s, events[0]), events[1..])
  }

  /** The pair that is being installed already, if any. */
  function UnderWay(w: World): set<Pair> {
    if w.flag == Normal then {} else {w.pend}
  }

  /** Whatever happens, in any order and any number of times: while the flag is NORMAL or RESTORE_PENDING both
      boards hold the good pair; while it is RESTORE_PREV the backups do; firmware that runs is a complete pair;
      and the good pair is the first one, or one whose installation was under way, or was requested. */
  lemma {:induction false} AlwaysSound(s: System, events: seq<Event>)
    requires Sound(s) && Possible(s, events)
    ensures Sound(Ending(s, events))
    ensures
      var r := Ending(s, events);
      && (if r.w.flag == RestorePrev then Restorable(r.w, r.good) else Holds(r.w, r.good))
      && (r.running.Some? ==> Holds(r.w, r.running.value))
      && (MAGIC95 <= r.w.flash95 ==>
            r.good.fw95 <= r.w.flash95 || r.w.flash95 == Installed(r.w.pend.fw95, r.w.pages95)
            || r.w.flash95 == Installed(r.w.prev.fw95, r.w.pages95))
    ensures Ending(s, events).good in {s.good} + UnderWay(s.w) + Requested(s, events)
    decreases |events|
  {
    if events != [] {
      EventSound(s, events[0]);
      OnlyByRequest(s, events[0]);
      AlwaysSound(Happens(s, events[0]), events[1..]);
    }
  }

  //
  // Recovery
  //

  /** The boot in which nothing fails. */
  function FaultFree(w: World): Course
    requires w.flag == RestorePending ==> Backable(w.flash624)
  {
    var p := if w.flag == RestorePending then w.pend else w.prev;
    Course([Prev95(w.flash95)], true, [Prev624(if w.flag == RestorePending then BackedUp624(w.flash624) else [])], true,
           CopyOps(p.fw95, PageCount(|p.fw95|)), true, SendOps(p.fw624), true)
  }

  /** From wherever power was cut, one undisturbed boot ends in running firmware: the requested pair if the update
      had not begun, and the good pair otherwise. */
  lemma Recovers(s: System)
    requires Sound(s) && (s.w.flag == RestorePending ==> Backable(s.w.flash624))
    ensures
      var e := Boot(FaultFree(s.w), |BootSteps(s.w, FaultFree(s.w))|);
      && Enabled(s, e) && Sound(Happens(s, e))
      && Happens(s, e).running == Some(if s.w.flag == RestorePending then s.w.pend else s.good)
  {
    hide Proper, Happens, Sound, AfterAll, CanRun, Holds, CopyOps, SendOps, Installed, AllFit, NeverHalf, Restorable,
         BootSteps;
    var c := FaultFree(s.w);
    FaultFreeFollows(s);
    BootSafe(s.w, c, s.good);
    var steps := BootSteps(s.w, c);
    assert steps[..|steps|] == steps;
    var e := Boot(c, |steps|);
    EventSound(s, e);
    LaunchRuns(s, c);
  }

  lemma FaultFreeFollows(s: System)
    requires Sound(s) && (s.w.flag == RestorePending ==> Backable(s.w.flash624))
    ensures Inv(s.w, s.good) && Proper(s.good)
    ensures Follows(s.w, FaultFree(s.w)) && Launches(s.w, FaultFree(s.w))
  {
    hide CopyOps, SendOps, AllFit, NeverHalf, Installed, BackedUp624, Backable;
    if s.w.flag != Normal {
      var p := if s.w.flag == RestorePending then s.w.pend else s.w.prev;
      CopyRun(s.w.flash95, p.fw95, s.w.pages95);
      SendIsCopy(p.fw624);
      CopyRun(s.w.flash624, p.fw624, s.w.pages624);
    }
  }

  lemma LaunchRuns(s: System, c: Course)
    requires Sound(s) && Follows(s.w, c) && CanRun(s.w, BootSteps(s.w, c)) && Launches(s.w, c)
    requires Holds(AfterAll(s.w, BootSteps(s.w, c)), Launched(s.w, c, s.good))
    ensures Happens(s, Boot(c, |BootSteps(s.w, c)|)).running == Some(Launched(s.w, c, s.good))
  {
    hide AfterAll, CanRun, Follows, BootSteps, Launches, NeverHalf, Restorable;
    var steps := BootSteps(s.w, c);
    assert steps[..|steps|] == steps;
  }

  //
  // The boot loader itself
  //

  /** How writing a file goes: whether it opens, after how many writes one fails (if it does), and whether it
      closes without error. */
  datatype Writing = Writing(opens: bool, failsAt: nat, closes: bool)

  /** All writes of a backup of this size work. */
  predicate CanWrite(io: Writing, portion: nat, size: nat) {
    io.opens && io.closes && io.failsAt * portion >= size
  }

  /** All reads of a file work, up to the one that finds its end. */
  predicate ReadsAll(io: Reading, portion: nat, size: nat) {
    io.opens && io.closes && io.failsAt * portion > size
  }

  /** The files that the flag asks for can be installed; nothing is asked of any others. */
  predicate Bootable(w: World) {
    && (w.flag == RestorePending ==> FitsIn(w.pend, w) && w.pend.fw95 != [] && Backable(w.flash624))
    && (w.flag == RestorePrev ==> FitsIn(w.prev, w) && w.prev.fw95 != [])
  }

  /** Whatever the history, a boot finds the files that it needs. */
  lemma SoundBootable(s: System)
    requires Sound(s) && (s.w.flag == RestorePending ==> Backable(s.w.flash624))
    ensures Bootable(s.w)
  {
    hide NeverHalf;
  }

  /** A box as it is delivered, whatever its files hold: a backup is not needed yet. */
  lemma DeliveredSound(w: World, good: Pair)
    requires |w.flash95| == w.pages95 * PAGE && |w.flash624| == w.pages624 * PAGE && w.pages95 >= 1 && w.pages624 >= 1
    requires w.flag == Normal && FitsIn(w.pend, w) && Proper(good) && Holds(w, good)
    ensures Sound(System(w, good, Some(good)))
  {
  }

  class Board {
    var flag: Flag
    const flash: Flash
    const boot: Bootloader
    const fwBlockCount: nat
    const pend: Pair
    var prev: Pair
    ghost var steps: seq<Step>

    ghost function Parts(): set<object>
      reads boot
    {
      {this, flash} + boot.Parts()
    }

    ghost predicate Valid()
      reads this, flash, boot, boot.Parts()
    {
      && this !in boot.Parts() && flash !in boot.Parts() && flash.Valid() && boot.Valid() && boot.Idle()
    }

    /** The zc624 has not received anything, and, where it matters, has counted its blocks. */
    ghost predicate Untouched()
      reads this, flash, boot, boot.Parts()
    {
      && boot.writer.received == [] && !boot.writer.finished
      && boot.slave.mem.Length == 256 && boot.slave.mem[ERASE_FIRMWARE] == ERASABLE
      && (flag == RestorePending ==>
            Backable(boot.flash.cells) && fwBlockCount == BlocksOf(ContentSize(boot.flash.cells)) < 0x1_0000)
    }

    /** As after power-on, with the files that the flag asks for. */
    ghost predicate Fresh()
      reads this, flash, boot, boot.Parts()
    {
      Valid() && Untouched() && Bootable(World())
    }

    ghost function World(): World
      reads this, flash, boot, boot.flash
    {
      Current(flag, flash.cells, boot.flash.cells, pend, prev, flash.count, boot.flash.count)
    }

    constructor (flag: Flag, flash: Flash, boot: Bootloader, fwBlockCount: nat, pend: Pair, prev: Pair)
      ensures this.flag == flag && this.flash == flash && this.boot == boot && this.fwBlockCount == fwBlockCount
      ensures this.pend == pend && this.prev == prev && steps == []
    {
      this.flag, this.flash, this.boot, this.fwBlockCount := flag, flash, boot, fwBlockCount;
      this.pend, this.prev, steps := pend, prev, [];
    }

    method SetEepromFlag(f: Flag)
      requires Valid()
      modifies this`flag, this`steps
      ensures Valid() && flag == f && steps == old(steps) + [SetFlag(f)]
    {
      flag := f;
      steps := steps + [SetFlag(f)];
    }

    /** backup_zc95_firmware: the whole firmware region, in portions. */
    method BackupZc95(io: Writing) returns (ok: bool, ghost b: seq<Step>)
      requires Valid()
      modifies this`prev, this`steps
      ensures Valid() && steps == old(steps) + b && BackupOf95(b, flash.cells, ok)
      ensures prev == if b == [] then old(prev) else old(prev).(fw95 := b[|b| - 1].contents)
      ensures ok == CanWrite(io, PORTION, |flash.cells|)
    {
      hide Flash.Valid, Bootloader.Valid;
      b := [];
      if !io.opens {
        return false, b;
      }
      prev := prev.(fw95 := []);
      b := [Prev95([])];
      var pos, k := 0, 0;
      while pos < |flash.cells|
        invariant steps == old(steps)
        invariant 0 <= pos <= |flash.cells| && prev == old(prev).(fw95 := flash.cells[..pos])
        invariant k <= io.failsAt && pos == (if k * PORTION <= |flash.cells| then k * PORTION else |flash.cells|)
        invariant b != [] && b[|b| - 1] == Prev95(flash.cells[..pos]) && forall i | 0 <= i < |b| :: b[i].Prev95?
      {
        var bytesToWrite := |flash.cells| - pos;
        if bytesToWrite > PORTION {
          bytesToWrite := PORTION;
        }
        if k == io.failsAt {
          steps := steps + b;
          return false, b;
        }
        prev := prev.(fw95 := prev.fw95 + flash.cells[pos..pos + bytesToWrite]);
        pos, k := pos + bytesToWrite, k + 1;
        b := b + [Prev95(prev.fw95)];
      }
      steps := steps + b;
      ok := io.closes;
    }

    /** zc624_backup_firmware: block by block over the link, as many as the zc624 says it has. */
    method BackupZc624(io: Writing) returns (ok: bool, ghost b: seq<Step>)
      requires Valid() && Backable(boot.flash.cells)
      requires fwBlockCount == BlocksOf(ContentSize(boot.flash.cells)) < 0x1_0000
      modifies this`prev, this`steps, boot.slave, boot.slave.mem, boot.slave.dataBlock
      ensures Valid() && boot.slave.mem[..] == old(boot.slave.mem[..])
      ensures steps == old(steps) + b && BackupOf624(b, BackedUp624(boot.flash.cells), ok)
      ensures prev == if b == [] then old(prev) else old(prev).(fw624 := b[|b| - 1].contents)
      ensures ok == CanWrite(io, 1, fwBlockCount)
    {
      hide Flash.Valid, Bootloader.Valid, I2cSlave.Valid, ContentSize, BlocksOf;
      BootFlash();
      b := [];
      var blockCount := boot.ReadBlockCount(fwBlockCount);
      if !io.opens {
        return false, b;
      }
      prev := prev.(fw624 := []);
      b := [Prev624([])];
      for blk := 0 to blockCount
        invariant Valid() && boot.slave.mem[..] == old(boot.slave.mem[..]) && steps == old(steps)
        invariant prev == old(prev).(fw624 := boot.flash.cells[..blk * BLOCK])
        invariant blk <= io.failsAt && b != [] && b[|b| - 1] == Prev624(boot.flash.cells[..blk * BLOCK])
        invariant forall i | 0 <= i < |b| :: b[i].Prev624?
      {
        var receiveBuffer := boot.ReadBlock(blk);
        if blk == io.failsAt {
          steps := steps + b;
          return false, b;
        }
        prev := prev.(fw624 := prev.fw624 + receiveBuffer);
        b := b + [Prev624(prev.fw624)];
        assert boot.flash.cells[..blk * BLOCK] + receiveBuffer == boot.flash.cells[..(blk + 1) * BLOCK];
      }
      steps := steps + b;
      ok := io.closes;
    }

    /** copy_sd_card_file_to_flash as a part of a boot. */
    method Copy(file: seq<byte>, io: Reading) returns (ok: bool, ghost ops: seq<Op>)
      requires Valid() && PageCount(|file|) <= flash.count && CanReadPages(io, file)
      modifies flash, this`steps
      ensures Valid() && unchanged(boot.Parts())
      ensures Attempt(ops, CopyOps(file, PageCount(|file|)), ok) && AllFit(ops, |old(flash.cells)|)
      ensures steps == old(steps) + On95(ops) && flash.cells == Run(old(flash.cells), ops)
      ensures ok == ReadsAll(io, PAGE, |file|)
    {
      hide CopyOps, Incomplete, Run, AllFit, Bootloader.Valid;
      ok := CopyFile(flash, file, io);
      ops := flash.log[|old(flash.log)|..];
      LogSuffix(flash.start, old(flash.log), flash.log);
      steps := steps + On95(ops);
    }

    /** zc624_send_sd_card_file as a part of a boot. */
    method Send(file: seq<byte>, io: Reading) returns (ok: bool, ghost ops: seq<Op>)
      requires Valid() && PageCount(|file|) <= boot.flash.count && CanReadBlocks(io, file)
      requires boot.writer.received == [] && !boot.writer.finished && boot.slave.mem[ERASE_FIRMWARE] == ERASABLE
      modifies boot.Parts(), this`steps
      ensures Valid()
      ensures Attempt(ops, SendOps(file), ok) && AllFit(ops, |old(boot.flash.cells)|)
      ensures steps == old(steps) + On624(ops) && boot.flash.cells == Run(old(boot.flash.cells), ops)
      ensures ok == ReadsAll(io, BLOCK, |file|)
    {
      hide Run, AllFit, Bootloader.Valid, LaterPages, StreamOps, Blocked;
      HalfAsManyPages(file);
      BootFlash();
      ok := SendFile(boot, file, io);
      NumbersOf(boot);
      BootFlash();
      ops := boot.flash.log[|old(boot.flash.log)|..];
      LogSuffix(boot.flash.start, old(boot.flash.log), boot.flash.log);
      if !boot.writer.finished {
        LaterPagesIncomplete(boot.writer.received, boot.writer.pages);
      }
      steps := steps + On624(ops);
    }

    /** The case of a pending update. */
    method Update(io: Io) returns (launch: bool, ghost c: Course)
      requires Fresh() && steps == [] && flag == RestorePending && CanRead(io, pend)
      modifies Parts()
      ensures Follows(old(World()), c) && Outcome(io, old(World()), c) && launch == Launches(old(World()), c)
      ensures steps == BootSteps(old(World()), c) && CanRun(old(World()), steps)
      ensures World() == AfterAll(old(World()), steps)
    {
      hide Attempt, CopyOps, SendOps, AllFit, Run, AfterAll, CanRun, BackedUp624, Backable, Bootloader.Valid,
           Flash.Valid, AfterBackup95, BlocksOf, ContentSize;
      ghost var w := World();
      c := Course([], false, [], false, [], false, [], false);
      NoAttempts(w);
      SetEepromFlag(Normal);
      Extended(w, [], [SetFlag(Normal)]);
      var ok95, b95 := BackupZc95(io.backup95);
      c := c.(backup95 := b95, ok95 := ok95);
      Run95(w.(flag := Normal), b95);
      Extended(w, [SetFlag(Normal)], b95);
      if !ok95 {
        NoBackup95(c);
        return true, c;
      }
      launch, c := ContinueUpdate(io, c);
      Extended(w, [SetFlag(Normal)] + b95, AfterBackup95(c));
      assert [SetFlag(Normal)] + b95 + AfterBackup95(c) == [SetFlag(Normal)] + (b95 + AfterBackup95(c));
    }

    /** Once the zc95 is backed up. */
    method ContinueUpdate(io: Io, ghost c0: Course) returns (launch: bool, ghost c: Course)
      requires Fresh() && FitsIn(pend, World()) && pend.fw95 != [] && CanRead(io, pend) && c0.ok95 && !c0.ok624
      requires c0.copy == c0.send == [] && !c0.copied && !c0.sent
      requires Backable(boot.flash.cells) && fwBlockCount == BlocksOf(ContentSize(boot.flash.cells)) < 0x1_0000
      modifies Parts()
      ensures c.ok624 == CanWrite(io.backup624, 1, fwBlockCount) && Installs(io, pend, c)
      ensures c.backup95 == c0.backup95 && c.ok95 && launch == (!c.ok624 || (c.copied && c.sent))
      ensures BackupOf624(c.backup624, old(BackedUp624(boot.flash.cells)), c.ok624)
      ensures Attempt(c.copy, CopyOps(pend.fw95, PageCount(|pend.fw95|)), c.copied)
      ensures AllFit(c.copy, |old(flash.cells)|)
      ensures Attempt(c.send, SendOps(pend.fw624), c.sent) && AllFit(c.send, |old(boot.flash.cells)|)
      ensures steps == old(steps) + AfterBackup95(c) && CanRun(old(World()), AfterBackup95(c))
      ensures World() == AfterAll(old(World()), AfterBackup95(c))
    {
      hide Attempt, CopyOps, SendOps, AllFit, Run, AfterAll, CanRun, BackedUp624, Backable, Bootloader.Valid,
           Flash.Valid, AfterBackups, BlocksOf, ContentSize;
      ghost var w := World();
      NoAttempts(w);
      var ok624, b624 := BackupZc624(io.backup624);
      c := c0.(backup624 := b624, ok624 := ok624);
      Run624(w, b624);
      if !ok624 {
        NoBackup624(c);
        return true, c;
      }
      launch, c := InstallPending(io, c);
      Extended(w, b624, AfterBackups(c));
    }

    /** From the moment that the backups count. */
    method InstallPending(io: Io, ghost c0: Course) returns (launch: bool, ghost c: Course)
      requires Valid() && boot.writer.received == [] && !boot.writer.finished
      requires boot.slave.mem[ERASE_FIRMWARE] == ERASABLE
      requires FitsIn(pend, World()) && CanRead(io, pend) && c0.ok624 && c0.send == [] && !c0.sent
      modifies Parts()
      ensures Installs(io, pend, c)
      ensures launch == (c.copied && c.sent)
      ensures c == c0.(copy := c.copy, copied := c.copied, send := c.send, sent := c.sent)
      ensures Attempt(c.copy, CopyOps(pend.fw95, PageCount(|pend.fw95|)), c.copied)
      ensures AllFit(c.copy, |old(flash.cells)|)
      ensures Attempt(c.send, SendOps(pend.fw624), c.sent) && AllFit(c.send, |old(boot.flash.cells)|)
      ensures steps == old(steps) + AfterBackups(c) && CanRun(old(World()), AfterBackups(c))
      ensures World() == AfterAll(old(World()), AfterBackups(c))
    {
      hide ReadsAll, Attempt, CopyOps, SendOps, AllFit, Run, AfterAll, CanRun, Bootloader.Valid, Flash.Valid,
           I2cSlave.Valid, On95, On624, PageCount, BlockCount, Bootloader.Idle;
      ghost var w := World();
      SetEepromFlag(RestorePrev);
      var copied, copy := Copy(pend.fw95, io.copy);
      c := c0.(copy := copy, copied := copied);
      if !copied {
        NotSent(SendOps(pend.fw624), |boot.flash.cells|);
        FlagThenCopy(w, copy);
        assert On95(copy) + [] == On95(copy);
        return false, c;
      }
      var sent, send := Send(pend.fw624, io.send);
      c := c.(send := send, sent := sent);
      FlagThenBoth(w, copy, send);
      launch := sent;
    }

    /** check_eeprom_flag does what the machine says, whatever fails on the way, and leaves the world as its steps
        do. */
    method CheckEepromFlag(io: Io) returns (launch: bool, ghost c: Course)
      requires Fresh() && steps == [] && (flag != Normal ==> CanRead(io, if flag == RestorePending then pend else prev))
      modifies Parts()
      ensures Follows(old(World()), c) && Outcome(io, old(World()), c) && launch == Launches(old(World()), c)
      ensures steps == BootSteps(old(World()), c) && CanRun(old(World()), steps)
      ensures World() == AfterAll(old(World()), steps)
    {
      hide Attempt, CopyOps, SendOps, AllFit, Run, AfterAll, CanRun, BackedUp624, Backable, BackupOf95, BackupOf624,
           Bootloader.Valid;
      ghost var w := World();
      c := Course([], false, [], false, [], false, [], false);
      match flag
      case Normal =>
        NothingTaken(w);
        return true, c;
      case RestorePending =>
        launch, c := Update(io);
      case RestorePrev =>
        var copied, copy := Copy(prev.fw95, io.copy);
        var sent, send := Send(prev.fw624, io.send);
        c := Course([], false, [], false, copy, copied, send, sent);
        launch := copied && sent;
        RunBoth(w, copy, send);
    }

    lemma BootFlash()
      requires boot.Valid()
      ensures boot.flash.Valid()
    {
    }
  }

  /** How the file operations of a boot go. */
  datatype Io = Io(backup95: Writing, backup624: Writing, copy: Reading, send: Reading)

  predicate CanRead(io: Io, p: Pair) {
    CanReadPages(io.copy, p.fw95) && CanReadBlocks(io.send, p.fw624)
  }

  /** Each part of an update succeeds exactly when it is reached and no file operation of its own fails; a restore
      writes to the zc624 in any case. */
  predicate Outcome(io: Io, w: World, c: Course) {
    match w.flag
    case Normal => true
    case RestorePending =>
      && c.ok95 == CanWrite(io.backup95, PORTION, |w.flash95|)
      && c.ok624 == (c.ok95 && CanWrite(io.backup624, 1, BlocksOf(ContentSize(w.flash624))))
      && Installs(io, w.pend, c)
    case RestorePrev =>
      c.copied == ReadsAll(io.copy, PAGE, |w.prev.fw95|) && c.sent == ReadsAll(io.send, BLOCK, |w.prev.fw624|)
  }

  predicate Installs(io: Io, p: Pair, c: Course) {
    && c.copied == (c.ok624 && ReadsAll(io.copy, PAGE, |p.fw95|))
    && c.sent == (c.copied && ReadsAll(io.send, BLOCK, |p.fw624|))
  }

  lemma NoAttempts(w: World)
    ensures CanRun(w, []) && AfterAll(w, []) == w && CanRun(w, [SetFlag(Normal)])
    ensures AfterAll(w, [SetFlag(Normal)]) == w.(flag := Normal)
    ensures forall complete :: Attempt([], complete, false)
    ensures forall size: nat :: AllFit([], size)
    ensures forall contents :: BackupOf95([], contents, false) && BackupOf624([], contents, false)
  {
    assert [SetFlag(Normal)][..0] == [];
  }

  lemma Extended(w: World, a: seq<Step>, b: seq<Step>)
    requires CanRun(w, a) && CanRun(AfterAll(w, a), b)
    ensures CanRun(w, a + b) && AfterAll(w, a + b) == AfterAll(AfterAll(w, a), b)
  {
    CanRunBack(w, a, b);
    AfterAppend(w, a, b);
  }

  lemma SetsFlag(w: World, f: Flag)
    ensures CanRun(w, [SetFlag(f)]) && AfterAll(w, [SetFlag(f)]) == w.(flag := f)
  {
    assert [SetFlag(f)][..0] == [];
  }

  lemma FlagThenCopy(w: World, copy: seq<Op>)
    requires AllFit(copy, |w.flash95|)
    ensures
      var steps := [SetFlag(RestorePrev)] + On95(copy);
      CanRun(w, steps) && AfterAll(w, steps) == w.(flag := RestorePrev, flash95 := Run(w.flash95, copy))
  {
    hide AfterAll, CanRun;
    SetsFlag(w, RestorePrev);
    RunOn95(w.(flag := RestorePrev), copy);
    Extended(w, [SetFlag(RestorePrev)], On95(copy));
  }

  lemma NotSent(complete: seq<Op>, size: nat)
    ensures Attempt([], complete, false) && AllFit([], size)
  {
  }

  lemma FlagThenBoth(w: World, copy: seq<Op>, send: seq<Op>)
    requires AllFit(copy, |w.flash95|) && AllFit(send, |w.flash624|)
    ensures
      var steps := [SetFlag(RestorePrev)] + (On95(copy) + On624(send));
      CanRun(w, steps) &&
      AfterAll(w, steps) == w.(flag := RestorePrev, flash95 := Run(w.flash95, copy), flash624 := Run(w.flash624, send))
  {
    hide AfterAll, CanRun;
    SetsFlag(w, RestorePrev);
    RunBoth(w.(flag := RestorePrev), copy, send);
    Extended(w, [SetFlag(RestorePrev)], On95(copy) + On624(send));
  }

  lemma NoBackup95(c: Course)
    requires !c.ok95
    ensures [SetFlag(Normal)] + (c.backup95 + AfterBackup95(c)) == [SetFlag(Normal)] + c.backup95
  {
  }

  lemma NoBackup624(c: Course)
    requires c.ok95 && !c.ok624
    ensures AfterBackup95(c) == c.backup624
  {
  }

  lemma RunBoth(w: World, copy: seq<Op>, send: seq<Op>)
    requires AllFit(copy, |w.flash95|) && AllFit(send, |w.flash624|)
    ensures CanRun(w, On95(copy) + On624(send))
    ensures AfterAll(w, On95(copy) + On624(send)) ==
            w.(flash95 := Run(w.flash95, copy), flash624 := Run(w.flash624, send))
  {
    RunOn95(w, copy);
    RunOn624(w, send);
    RunOn624(AfterAll(w, On95(copy)), send);
    AfterAppend(w, On95(copy), On624(send));
  }

  predicate CanReadPages(io: Reading, file: seq<byte>) {
    |io.partial| <= PAGE && (io.failsAt * PAGE <= |file| ==> io.failsAt * PAGE + |io.partial| <= |file|)
  }

  predicate CanReadBlocks(io: Reading, file: seq<byte>) {
    |io.partial| <= BLOCK && (io.failsAt * BLOCK <= |file| ==> io.failsAt * BLOCK + |io.partial| <= |file|)
  }

  lemma HalfAsManyPages(file: seq<byte>)
    ensures BlockCount(|file|) * BLOCK <= PageCount(|file|) * PAGE
  {
    hide BlockCount, PageCount;
    assert BlockCount(|file|) <= 2 * PageCount(|file|);
  }

  lemma LogSuffix(start: seq<byte>, before: seq<Op>, after: seq<Op>)
    requires before <= after && AllFit(after, |start|)
    ensures
      var ops := after[|before|..];
      after == before + ops && AllFit(before, |start|) && AllFit(ops, |start|)
      && Run(start, after) == Run(Run(start, before), ops)
  {
    assert after == before + after[|before|..];
    RunAppend(start, before, after[|before|..]);
  }

  //
  // The boot loader in the machine
  //

  /** Both firmwares are there to be written. */
  predicate Writable(p: Pair, w: World) {
    FitsIn(p, w) && p.fw95 != [] && |p.fw624| > BLOCK
  }

  predicate Sized(w: World) {
    |w.flash95| == w.pages95 * PAGE && |w.flash624| == w.pages624 * PAGE && w.pages95 >= 1 && w.pages624 >= 1
  }

  /** What the two copies leave behind. */
  lemma WritesEnd(w: World, c: Course, sendAnyway: bool, p: Pair)
    requires Sized(w) && Writable(p, w)
    requires Attempt(c.copy, CopyOps(p.fw95, PageCount(|p.fw95|)), c.copied)
    requires Attempt(c.send, SendOps(p.fw624), c.sent)
    requires AllFit(c.copy, |w.flash95|) && AllFit(c.send, |w.flash624|)
    ensures CanRun(w, WriteSteps(c, sendAnyway))
    ensures
      var r := AfterAll(w, WriteSteps(c, sendAnyway));
      && r == w.(flash95 := r.flash95, flash624 := r.flash624)
      && (c.copied ==> r.flash95 == Installed(p.fw95, w.pages95))
      && (if c.copied || sendAnyway then c.sent ==> r.flash624 == Installed(p.fw624, w.pages624)
          else r.flash624 == w.flash624)
  {
    hide AfterAll, CanRun, Attempt, CopyOps, SendOps, AllFit, Installed, Run;
    AttemptAt(w.flash95, p.fw95, w.pages95, c.copy, c.copied, |c.copy|);
    SendIsCopy(p.fw624);
    AttemptAt(w.flash624, p.fw624, w.pages624, c.send, c.sent, |c.send|);
    if c.copied || sendAnyway {
      RunBoth(w, c.copy, c.send);
    } else {
      RunOn95(w, c.copy);
      assert On95(c.copy) + [] == On95(c.copy);
    }
  }

  /** What a boot leaves behind, whatever fails on the way: a backup that cannot be written leaves both flashes and
      their firmware as they are; otherwise the backups are those of both flashes, and what could be copied is
      installed. */
  lemma BootEnds(w: World, c: Course)
    requires Sized(w) && Follows(w, c)
    requires w.flag == RestorePending ==> Writable(w.pend, w)
    requires w.flag == RestorePrev ==> Writable(w.prev, w)
    ensures CanRun(w, BootSteps(w, c))
    ensures
      var r := AfterAll(w, BootSteps(w, c));
      match w.flag
      case Normal => r == w
      case RestorePending =>
        if !c.ok95 || !c.ok624 then r.flag == Normal && r.flash95 == w.flash95 && r.flash624 == w.flash624
        else
          && r.flag == RestorePrev && r.prev == Pair(w.flash95, BackedUp624(w.flash624))
          && (c.copied ==> r.flash95 == Installed(w.pend.fw95, w.pages95))
          && (if c.copied then c.sent ==> r.flash624 == Installed(w.pend.fw624, w.pages624)
              else r.flash624 == w.flash624)
      case RestorePrev =>
        && r.flag == RestorePrev && r.prev == w.prev
        && (c.copied ==> r.flash95 == Installed(w.prev.fw95, w.pages95))
        && (c.sent ==> r.flash624 == Installed(w.prev.fw624, w.pages624))
  {
    hide AfterAll, CanRun, Attempt, CopyOps, SendOps, AllFit, Installed, WriteSteps, BackedUp624, Backable;
    match w.flag
    case Normal =>
      NothingTaken(w);
    case RestorePending =>
      SetsFlag(w, Normal);
      var w1 := w.(flag := Normal);
      Run95(w1, c.backup95);
      var w2 := AfterAll(w1, c.backup95);
      if c.ok95 {
        BackupEnds(w2, c, w.flash95);
        Extended(w1, c.backup95, AfterBackup95(c));
      } else {
        assert c.backup95 + [] == c.backup95;
      }
      Extended(w, [SetFlag(Normal)], c.backup95 + AfterBackup95(c));
    case RestorePrev =>
      WritesEnd(w, c, true, w.prev);
  }

  /** The rest of an update, once the zc95 is backed up. */
  lemma BackupEnds(w: World, c: Course, saved: seq<byte>)
    requires Sized(w) && w.flag == Normal && Follows(w.(flag := RestorePending), c) && Writable(w.pend, w) && c.ok95
    requires w.prev.fw95 == saved
    ensures CanRun(w, AfterBackup95(c))
    ensures
      var r := AfterAll(w, AfterBackup95(c));
      if !c.ok624 then r.flag == Normal && r.flash95 == w.flash95 && r.flash624 == w.flash624
      else
        && r.flag == RestorePrev && r.prev == Pair(saved, BackedUp624(w.flash624))
        && (c.copied ==> r.flash95 == Installed(w.pend.fw95, w.pages95))
        && (if c.copied then c.sent ==> r.flash624 == Installed(w.pend.fw624, w.pages624)
            else r.flash624 == w.flash624)
  {
    hide AfterAll, CanRun, Attempt, CopyOps, SendOps, AllFit, Installed, WriteSteps, BackedUp624, Backable;
    Run624(w, c.backup624);
    var w1 := AfterAll(w, c.backup624);
    if c.ok624 {
      SetsFlag(w1, RestorePrev);
      WritesEnd(w1.(flag := RestorePrev), c, false, w.pend);
      Extended(w1, [SetFlag(RestorePrev)], WriteSteps(c, false));
      Extended(w, c.backup624, AfterBackups(c));
    } else {
      assert c.backup624 + [] == c.backup624;
    }
  }

  /** The same in terms of the file operations. */
  lemma EndsByIo(w: World, c: Course, io: Io, good: Pair, blocks: nat)
    requires Inv(w, good) && Follows(w, c) && Outcome(io, w, c)
    requires w.flag == RestorePending ==> blocks == BlocksOf(ContentSize(w.flash624))
    ensures w.flag == RestorePending ==> blocks * 128 <= |w.flash624|
    ensures CanRun(w, BootSteps(w, c))
    ensures
      var r := AfterAll(w, BootSteps(w, c));
      match w.flag
      case Normal => Launches(w, c) && r == w
      case RestorePending =>
        var saved :=
          && io.backup95.opens && io.backup95.closes && io.backup95.failsAt * 1024 >= |w.flash95|
          && io.backup624.opens && io.backup624.closes && io.backup624.failsAt >= blocks;
        var copied := io.copy.opens && io.copy.closes && io.copy.failsAt * 256 > |w.pend.fw95|;
        var sent := io.send.opens && io.send.closes && io.send.failsAt * 128 > |w.pend.fw624|;
        if !saved then Launches(w, c) && r.flag == Normal && r.flash95 == w.flash95 && r.flash624 == w.flash624
        else
          && Launches(w, c) == (copied && sent)
          && r.flag == RestorePrev && r.prev == Pair(w.flash95, w.flash624[..blocks * 128])
          && (copied ==> r.flash95 == Installed(w.pend.fw95, w.pages95))
          && (if copied then sent ==> r.flash624 == Installed(w.pend.fw624, w.pages624) else r.flash624 == w.flash624)
      case RestorePrev =>
        var copied := io.copy.opens && io.copy.closes && io.copy.failsAt * 256 > |w.prev.fw95|;
        var sent := io.send.opens && io.send.closes && io.send.failsAt * 128 > |w.prev.fw624|;
        && Launches(w, c) == (copied && sent) && r.flag == RestorePrev && r.prev == w.prev
        && (copied ==> r.flash95 == Installed(w.prev.fw95, w.pages95))
        && (sent ==> r.flash624 == Installed(w.prev.fw624, w.pages624))
  {
    hide AfterAll, CanRun, Attempt, CopyOps, SendOps, AllFit, Installed, BootSteps, NeverHalf, ContentSize, BlocksOf,
         BackupOf95, BackupOf624;
    if w.flag == RestorePending {
      MarkedFirmware(w.pend);
    }
    BootEnds(w, c);
  }

  lemma MarkedFirmware(p: Pair)
    requires Proper(p)
    ensures p.fw95 != [] && |p.fw624| > BLOCK
  {
  }

  /** A boot of the boot loader itself, from any state that can be reached: at every step that it takes, power may
      fail; and what it launches is complete. */
  method BootFrom(board: Board, io: Io, ghost good: Pair) returns (launch: bool, ghost c: Course)
    requires board.Valid() && board.Untouched() && board.steps == [] && Sound(System(board.World(), good, None))
    requires board.flag != Normal ==> CanRead(io, if board.flag == RestorePending then board.pend else board.prev)
    modifies board.Parts()
    ensures Safe(old(board.World()), board.steps, good) && board.World() == AfterAll(old(board.World()), board.steps)
    ensures launch == Launches(old(board.World()), c) && Outcome(io, old(board.World()), c)
    ensures launch ==> Holds(board.World(), Launched(old(board.World()), c, good))
    ensures Enabled(System(old(board.World()), good, None), Boot(c, |board.steps|))
    ensures old(board.flag) == Normal ==> launch && board.World() == old(board.World())
    ensures old(board.flag) == RestorePending ==>
              var cells95, cells624 := old(board.flash.cells), old(board.boot.flash.cells);
              var saved :=
                && io.backup95.opens && io.backup95.closes && io.backup95.failsAt * 1024 >= |cells95|
                && io.backup624.opens && io.backup624.closes && io.backup624.failsAt >= board.fwBlockCount;
              var copied := io.copy.opens && io.copy.closes && io.copy.failsAt * 256 > |board.pend.fw95|;
              var sent := io.send.opens && io.send.closes && io.send.failsAt * 128 > |board.pend.fw624|;
              if !saved then
                launch && board.flag == Normal && board.flash.cells == cells95 && board.boot.flash.cells == cells624
              else
                && launch == (copied && sent) && board.flag == RestorePrev
                && board.fwBlockCount * 128 <= |cells624|
                && board.prev == Pair(cells95, cells624[..board.fwBlockCount * 128])
                && (copied ==> board.pend.fw95 <= board.flash.cells)
                && (copied && sent ==> board.pend.fw624 <= board.boot.flash.cells)
                && (!copied ==> board.boot.flash.cells == cells624)
    ensures old(board.flag) == RestorePrev ==>
              var copied := io.copy.opens && io.copy.closes && io.copy.failsAt * 256 > |board.prev.fw95|;
              var sent := io.send.opens && io.send.closes && io.send.failsAt * 128 > |board.prev.fw624|;
              && launch == (copied && sent) && board.flag == RestorePrev && board.prev == old(board.prev)
              && (copied ==> board.prev.fw95 <= board.flash.cells)
              && (sent ==> board.prev.fw624 <= board.boot.flash.cells)
  {
    hide Board.Valid, Sound, Inv, Safe, Follows, Launched, BootSteps, Outcome, AfterAll, CanRun, Holds, Proper,
         Launches, ContentSize, BlocksOf, Backable, Installed;
    ghost var w := board.World();
    SoundBootable(System(w, good, None));
    launch, c := board.CheckEepromFlag(io);
    SoundParts(System(w, good, None));
    BootSafe(w, c, good);
    EndsByIo(w, c, io, good, board.fwBlockCount);
    FilesFit(w, good);
  }

  lemma FilesFit(w: World, good: Pair)
    requires Inv(w, good)
    ensures FitsIn(w.pend, w) && (w.flag == RestorePrev ==> FitsIn(w.prev, w))
    ensures w.flag != Normal ==> w.pend.fw95 <= Installed(w.pend.fw95, w.pages95)
    ensures w.flag != Normal ==> w.pend.fw624 <= Installed(w.pend.fw624, w.pages624)
    ensures w.flag == RestorePrev ==> w.prev.fw95 <= Installed(w.prev.fw95, w.pages95)
    ensures w.flag == RestorePrev ==> w.prev.fw624 <= Installed(w.prev.fw624, w.pages624)
  {
    hide Installed, NeverHalf;
  }

  lemma SoundParts(s: System)
    requires Sound(s)
    ensures Inv(s.w, s.good) && Proper(s.good)
  {
  }
}
