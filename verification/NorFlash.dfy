/** Flash memory as the boot loaders use it, and the two routines that write a firmware image into it: the
    streaming writer of zc624Bootloader.cpp and zc95Bootloader.c, and the copy from a file. */
module NorFlash {
  import opened Bytes

  const PAGE := 256

  /** The primitive steps: power may be cut between any two of them. Erasing is of the whole firmware region. */
  datatype Op = Erase | Program(page: nat, data: seq<byte>)

  function Filled(n: nat, b: byte): (s: seq<byte>)
    ensures |s| == n && forall i | 0 <= i < n :: s[i] == b
  {
    seq(n, _ => b)
  }

  function Blank(n: nat): seq<byte> {
    Filled(n, 255)
  }

  predicate Fits(op: Op, size: nat) {
    op.Program? ==> |op.data| == PAGE && op.page * PAGE + PAGE <= size
  }

  function AndAll(a: seq<byte>, b: seq<byte>): (r: seq<byte>)
    requires |a| == |b|
    ensures |r| == |a| && forall i | 0 <= i < |a| :: r[i] == And(a[i], b[i])
  {
    seq(|a|, i requires 0 <= i < |a| => And(a[i], b[i]))
  }

  /** Programming can only clear bits. */
  function Apply(cells: seq<byte>, op: Op): (r: seq<byte>)
    requires Fits(op, |cells|)
    ensures |r| == |cells|
  {
    match op
    case Erase => Blank(|cells|)
    case Program(page, data) =>
      var at := page * PAGE;
      cells[..at] + AndAll(cells[at..at + PAGE], data) + cells[at + PAGE..]
  }

  predicate AllFit(ops: seq<Op>, size: nat) {
    forall i | 0 <= i < |ops| :: Fits(ops[i], size)
  }

  function Run(cells: seq<byte>, ops: seq<Op>): (r: seq<byte>)
    requires AllFit(ops, |cells|)
    ensures |r| == |cells|
  {
    if |ops| == 0 then cells else Apply(Run(cells, ops[..|ops| - 1]), ops[|ops| - 1])
  }

  lemma {:induction false} RunAppend(cells: seq<byte>, a: seq<Op>, b: seq<Op>)
    requires AllFit(a, |cells|) && AllFit(b, |cells|)
    ensures Run(cells, a + b) == Run(Run(cells, a), b)
  {
    if |b| == 0 {
      assert a + b == a;
    } else {
      var s := a + b;
      assert s[..|s| - 1] == a + b[..|b| - 1] && s[|s| - 1] == b[|b| - 1];
      RunAppend(cells, a, b[..|b| - 1]);
    }
  }

  //
  // Writing an image
  //

  /** How many pages n bytes take. */
  function PageCount(n: nat): (k: nat)
    ensures k * PAGE - PAGE < n <= k * PAGE
  {
    (n + PAGE - 1) / PAGE
  }

  /** Zero-padded to whole pages, as the buffers of the writers are zeroed before each page. */
  function Padded(s: seq<byte>): (p: seq<byte>)
    ensures |p| == PageCount(|s|) * PAGE && p[..|s|] == s
    ensures forall i | |s| <= i < |p| :: p[i] == 0
  {
    s + Filled(PageCount(|s|) * PAGE - |s|, 0)
  }

  /** Pages 1 to n - 1 of an image, in order. */
  function LaterPages(p: seq<byte>, n: nat): (ops: seq<Op>)
    requires n * PAGE <= |p|
  {
    if n <= 1 then [] else LaterPages(p, n - 1) + [Program(n - 1, p[(n - 1) * PAGE..n * PAGE])]
  }

  /** The whole image of n pages: the first page comes last, so that an image cut short is not taken for firmware. */
  function ImageOps(p: seq<byte>, n: nat): seq<Op>
    requires 1 <= n && n * PAGE <= |p|
  {
    LaterPages(p, n) + [Program(0, p[..PAGE])]
  }

  lemma {:induction false} LaterPageAt(p: seq<byte>, n: nat, k: nat)
    requires 1 <= n && n * PAGE <= |p| && k < n - 1
    ensures |LaterPages(p, n)| == n - 1
    ensures LaterPages(p, n)[k] == Program(k + 1, p[(k + 1) * PAGE..(k + 2) * PAGE])
    ensures LaterPages(p, n)[..k] == LaterPages(p, k + 1)
  {
    LaterPagesCount(p, n);
    LaterPagesCount(p, n - 1);
    LaterPagesCount(p, k + 1);
    if k < n - 2 {
      LaterPageAt(p, n - 1, k);
    }
  }

  lemma {:induction false} LaterPagesCount(p: seq<byte>, n: nat)
    requires n * PAGE <= |p|
    ensures |LaterPages(p, n)| == if n == 0 then 0 else n - 1
    ensures AllFit(LaterPages(p, n), |p|)
  {
    if n > 1 {
      LaterPagesCount(p, n - 1);
    }
  }

  lemma BlankSplit(m: nat, n: nat)
    ensures Blank(m + n) == Blank(m) + Blank(n)
  {
  }

  /** Programming a blank page stores the data and leaves the rest alone. */
  lemma ProgramBlank(before: seq<byte>, data: seq<byte>, after: seq<byte>, page: nat)
    requires |before| == page * PAGE && |data| == PAGE
    ensures Apply(before + Blank(PAGE) + after, Program(page, data)) == before + data + after
  {
    var cells, at := before + Blank(PAGE) + after, |before|;
    assert cells[..at] == before && cells[at + PAGE..] == after && cells[at..at + PAGE] == Blank(PAGE);
    forall i | 0 <= i < PAGE
      ensures AndAll(Blank(PAGE), data)[i] == data[i]
    {
      AndOnes(data[i]);
    }
    assert AndAll(Blank(PAGE), data) == data;
  }

  lemma NextPage(p: seq<byte>, n: nat, size: nat)
    requires 2 <= n && n * PAGE <= |p| <= size
    ensures
      var at := (n - 1) * PAGE;
      Apply(Blank(PAGE) + p[PAGE..at] + Blank(size - at), Program(n - 1, p[at..n * PAGE]))
      == Blank(PAGE) + p[PAGE..n * PAGE] + Blank(size - n * PAGE)
  {
    hide Apply, Blank;
    var at, rest := (n - 1) * PAGE, size - n * PAGE;
    var before := Blank(PAGE) + p[PAGE..at];
    BlankLength(PAGE);
    BlankSplit(PAGE, rest);
    assert before + (Blank(PAGE) + Blank(rest)) == before + Blank(PAGE) + Blank(rest);
    ProgramBlank(before, p[at..at + PAGE], Blank(rest), n - 1);
    assert p[PAGE..n * PAGE] == p[PAGE..at] + p[at..at + PAGE];
    assert before + p[at..at + PAGE] == Blank(PAGE) + p[PAGE..n * PAGE];
  }

  /** After the first n - 1 steps on erased flash: page 0 is blank, pages 1 to n - 1 hold the image, and the
      rest is blank. */
  lemma {:induction false} LaterPagesRun(p: seq<byte>, n: nat, size: nat)
    requires 1 <= n && n * PAGE <= |p| <= size
    ensures AllFit(LaterPages(p, n), size)
    ensures Run(Blank(size), LaterPages(p, n)) == Blank(PAGE) + p[PAGE..n * PAGE] + Blank(size - n * PAGE)
  {
    hide Apply, Blank;
    LaterPagesCount(p, n);
    if n == 1 {
      BlankSplit(PAGE, size - PAGE);
      assert Blank(PAGE) + p[PAGE..PAGE] == Blank(PAGE);
    } else {
      var at, ops, earlier := (n - 1) * PAGE, LaterPages(p, n), LaterPages(p, n - 1);
      LaterPagesRun(p, n - 1, size);
      assert ops[..|ops| - 1] == earlier && ops[|ops| - 1] == Program(n - 1, p[at..n * PAGE]);
      NextPage(p, n, size);
    }
  }

  lemma BlankLength(n: nat)
    ensures |Blank(n)| == n
  {
  }

  /** On erased flash an image arrives complete. */
  lemma ImageRun(p: seq<byte>, n: nat, size: nat)
    requires 1 <= n && n * PAGE == |p| <= size
    ensures |ImageOps(p, n)| == n && AllFit(ImageOps(p, n), size)
    ensures Run(Blank(size), ImageOps(p, n)) == p + Blank(size - |p|)
  {
    hide Apply, Blank;
    LaterPagesRun(p, n, size);
    LaterPagesCount(p, n);
    var later, ops := LaterPages(p, n), ImageOps(p, n);
    assert ops[..|ops| - 1] == later;
    var after := p[PAGE..] + Blank(size - |p|);
    assert [] + Blank(PAGE) + after == Blank(PAGE) + p[PAGE..n * PAGE] + Blank(size - n * PAGE);
    ProgramBlank([], p[..PAGE], after, 0);
    assert [] + p[..PAGE] + after == p + Blank(size - |p|);
  }

  /** Until its last step the first page is blank, and so not taken for firmware. */
  lemma ImageCutShort(p: seq<byte>, n: nat, size: nat, k: nat)
    requires 1 <= n && n * PAGE == |p| <= size && k < n
    ensures |ImageOps(p, n)| == n && AllFit(ImageOps(p, n), size)
    ensures Run(Blank(size), ImageOps(p, n)[..k])[..PAGE] == Blank(PAGE)
  {
    hide Run, Blank, AllFit;
    ImageRun(p, n, size);
    assert ImageOps(p, n)[..k] == LaterPages(p, k + 1) by {
      LaterPagesCount(p, n);
      if k < n - 1 {
        LaterPageAt(p, n, k);
      }
    }
    BlankLength(PAGE);
    LaterPagesRun(p, k + 1, size);
  }

  /** No page is programmed twice between two erases. */
  predicate EachPageOnce(ops: seq<Op>) {
    forall i, j | 0 <= i < j < |ops| && ops[i].Program? && ops[j].Program? :: ops[i].page != ops[j].page
  }

  lemma ImageProgramsOnce(p: seq<byte>, n: nat)
    requires 1 <= n && n * PAGE <= |p|
    ensures EachPageOnce(ImageOps(p, n))
  {
    LaterPagesCount(p, n);
    forall i | 0 <= i < n - 1
      ensures ImageOps(p, n)[i].Program? && ImageOps(p, n)[i].page == i + 1
    {
      LaterPageAt(p, n, i);
    }
  }

  lemma {:induction false} LaterPagesPrefix(r: seq<byte>, p: seq<byte>, n: nat)
    requires n * PAGE <= |r| && r <= p
    ensures LaterPages(r, n) == LaterPages(p, n)
  {
    if n > 1 {
      LaterPagesPrefix(r, p, n - 1);
      assert r[(n - 1) * PAGE..n * PAGE] == p[(n - 1) * PAGE..n * PAGE];
    }
  }

  /** The flash chip: what it holds, and every step taken on it. */
  class Flash {
    var cells: seq<byte>
    ghost const start: seq<byte>
    ghost const count: nat
    ghost var log: seq<Op>

    ghost predicate Valid()
      reads this
      ensures Valid() ==> |cells| == count * PAGE
    {
      |cells| == |start| == count * PAGE && count >= 1 && AllFit(log, |start|) && cells == Run(start, log)
    }

    constructor (contents: seq<byte>, ghost count: nat)
      requires |contents| == count * PAGE && count >= 1
      ensures Valid() && cells == start == contents && log == [] && this.count == count
    {
      cells, start, log, this.count := contents, contents, [], count;
    }

    /** flash_range_erase over the firmware region. */
    method EraseAll()
      requires Valid()
      modifies this
      ensures Valid() && log == old(log) + [Erase]
    {
      cells := Apply(cells, Erase);
      log := log + [Erase];
      assert log[..|log| - 1] == old(log);
    }

    /** flash_range_program of one page. */
    method ProgramPage(page: nat, data: seq<byte>)
      requires Valid() && page < count && |data| == PAGE
      modifies this
      ensures Valid() && log == old(log) + [Program(page, data)]
    {
      cells := Apply(cells, Program(page, data));
      log := log + [Program(page, data)];
      assert log[..|log| - 1] == old(log);
    }

    /** write_buffer_to_flash: the page that ends at the byte counter, which has to be a positive multiple of
        256. The source asserts that; here it is the caller's duty to say which multiple. */
    method WriteBuffer(buffer: seq<byte>, totalByteCounter: nat, ghost n: nat)
      requires Valid() && |buffer| == PAGE
      requires totalByteCounter == n * PAGE && 1 <= n <= count
      modifies this
      ensures Valid() && log == old(log) + [Program(n - 1, buffer)]
    {
      ProgramPage((totalByteCounter - 256) / PAGE, buffer);
    }
  }

  //
  // The streaming writer
  //

  /** The steps for a received stream of n whole pages and a rest of less than a page. */
  function StreamOps(r: seq<byte>, n: nat): seq<Op>
    requires n * PAGE <= |r| < n * PAGE + PAGE
  {
    LaterPages(r, n)
    + (if |r| > n * PAGE then [Program(n, r[n * PAGE..] + Filled(n * PAGE + PAGE - |r|, 0))] else [])
    + [Program(0, if n >= 1 then r[..PAGE] else Filled(PAGE, 0))]
  }

  /** For a stream of at least a page these are the steps of the padded image. */
  lemma StreamIsImage(r: seq<byte>, n: nat)
    requires 1 <= n && n * PAGE <= |r| < n * PAGE + PAGE
    ensures PageCount(|r|) == if |r| > n * PAGE then n + 1 else n
    ensures StreamOps(r, n) == ImageOps(Padded(r), PageCount(|r|))
  {
    var p := Padded(r);
    LaterPagesPrefix(r, p, n);
    assert r[..PAGE] == p[..PAGE];
    if |r| > n * PAGE {
      assert |p| == (n + 1) * PAGE;
      assert r[n * PAGE..] + Filled(n * PAGE + PAGE - |r|, 0) == p[n * PAGE..(n + 1) * PAGE];
    }
  }

  /** What a finished transfer leaves on erased flash: the stream, zero-padded to a page, if it filled the first
      page. A shorter one leaves a first page of zeros. */
  lemma StreamRun(r: seq<byte>, n: nat, count: nat, size: nat)
    requires n * PAGE <= |r| < n * PAGE + PAGE && |r| <= size == count * PAGE && count >= 1
    ensures AllFit(StreamOps(r, n), size)
    ensures Run(Blank(size), StreamOps(r, n)) ==
            if n >= 1 then Padded(r) + Blank(size - |Padded(r)|) else Filled(PAGE, 0) + Blank(size - PAGE)
    ensures EachPageOnce(StreamOps(r, n)) <==> n >= 1 || r == []
  {
    hide Run, AllFit, StreamOps, ImageOps, EachPageOnce, Blank, Filled;
    if n >= 1 {
      StreamIsImage(r, n);
      ImageRun(Padded(r), PageCount(|r|), size);
      ImageProgramsOnce(Padded(r), PageCount(|r|));
    } else {
      ShortStreamRun(r, size);
    }
  }

  /** For instance, of 128 bytes of ones nothing arrives, and the first page is programmed twice. */
  lemma ShortStreamFails(r: seq<byte>)
    requires r == seq(PAGE / 2, _ => 1)
    ensures AllFit(StreamOps(r, 0), PAGE) && Run(Blank(PAGE), StreamOps(r, 0))[0] == 0 && !EachPageOnce(StreamOps(r, 0))
  {
    hide Run, AllFit, StreamOps, EachPageOnce;
    StreamRun(r, 0, 1, PAGE);
    assert r[0] == 1;
  }

  lemma ShortStreamRun(r: seq<byte>, size: nat)
    requires |r| < PAGE <= size
    ensures AllFit(StreamOps(r, 0), size)
    ensures Run(Blank(size), StreamOps(r, 0)) == Filled(PAGE, 0) + Blank(size - PAGE)
    ensures EachPageOnce(StreamOps(r, 0)) <==> r == []
  {
    hide Run, Apply;
    var ops, zeros := StreamOps(r, 0), Program(0, Filled(PAGE, 0));
    var cells := Blank(size);
    BlankSplit(PAGE, size - PAGE);
    assert cells[PAGE..] == Blank(size - PAGE);
    if r == [] {
      assert ops == [zeros];
      OneStep(cells, zeros);
      ProgramZeros(cells);
    } else {
      var first := Program(0, r + Filled(PAGE - |r|, 0));
      assert ops == [first, zeros] by {
        assert r[0..] == r;
      }
      assert ops[0].page == ops[1].page;
      TwoSteps(cells, first, zeros);
      RestUntouched(cells, first);
      ProgramZeros(Apply(cells, first));
    }
  }

  lemma RestUntouched(cells: seq<byte>, op: Op)
    requires Fits(op, |cells|) && op.Program? && op.page == 0
    ensures Apply(cells, op)[PAGE..] == cells[PAGE..]
  {
  }

  lemma OneStep(cells: seq<byte>, a: Op)
    requires Fits(a, |cells|)
    ensures Run(cells, [a]) == Apply(cells, a)
  {
    hide Apply;
    assert [a][..0] == [];
  }

  lemma TwoSteps(cells: seq<byte>, a: Op, b: Op)
    requires Fits(a, |cells|) && Fits(b, |cells|)
    ensures Run(cells, [a, b]) == Apply(Apply(cells, a), b)
  {
    hide Apply;
    assert [a, b][..1] == [a];
    OneStep(cells, a);
  }

  lemma ProgramZeros(cells: seq<byte>)
    requires |cells| >= PAGE
    ensures Apply(cells, Program(0, Filled(PAGE, 0))) == Filled(PAGE, 0) + cells[PAGE..]
  {
    forall i | 0 <= i < PAGE
      ensures AndAll(cells[0..PAGE], Filled(PAGE, 0))[i] == 0
    {
      AndZero(cells[i]);
    }
  }

  /** The buffer after one more byte. */
  lemma OneMore(r: seq<byte>, b: byte, n: nat, buffer: seq<byte>, before: seq<byte>)
    requires n * PAGE <= |r| < n * PAGE + PAGE
    requires before == r[n * PAGE..] + Filled(n * PAGE + PAGE - |r|, 0) && buffer == before[|r| - n * PAGE := b]
    ensures buffer == (r + [b])[n * PAGE..] + Filled(n * PAGE + PAGE - |r| - 1, 0)
    ensures n >= 1 ==> (r + [b])[..PAGE] == r[..PAGE]
  {
  }

  /** Erased flash with whole pages of a stream in place, the first of them still blank. */
  function HeldBack(r: seq<byte>, n: nat, count: nat): seq<byte>
    requires n * PAGE <= |r| && n <= count && count >= 1
  {
    if n == 0 then Blank(count * PAGE) else Blank(PAGE) + r[PAGE..n * PAGE] + Blank(count * PAGE - n * PAGE)
  }

  lemma HeldBackRun(r: seq<byte>, n: nat, count: nat)
    requires n * PAGE <= |r| && n <= count && count >= 1
    ensures AllFit(LaterPages(r, n), count * PAGE)
    ensures Run(Blank(count * PAGE), LaterPages(r, n)) == HeldBack(r, n, count)
    ensures HeldBack(r, n, count)[..PAGE] == Blank(PAGE)
  {
    hide Run, AllFit, Blank, LaterPages;
    BlankLength(PAGE);
    BlankLength(count * PAGE);
    if n == 0 {
      NoLaterPages(r, Blank(count * PAGE));
      BlankSplit(PAGE, count * PAGE - PAGE);
    } else {
      var whole := r[..n * PAGE];
      LaterPagesPrefix(whole, r, n);
      LaterPagesRun(whole, n, count * PAGE);
      assert whole[PAGE..n * PAGE] == r[PAGE..n * PAGE];
    }
  }

  lemma NoLaterPages(r: seq<byte>, cells: seq<byte>)
    ensures LaterPages(r, 0) == [] && AllFit([], |cells|) && Run(cells, []) == cells
  {
  }

  /** write_received_data_to_flash of the zc624 (erasesFirst false: its main loop has erased the flash before)
      and xmodem_data_received_write_flash of the zc95 (erasesFirst true). The static counters are never
      reset, so a writer serves one transfer. */
  class StreamWriter {
    const flash: Flash
    const erasesFirst: bool
    var totalByteCounter: nat
    var bufferPos: nat
    var firstBlock: bool
    const buffer: array<byte>
    const firstBlockContents: array<byte>
    ghost var received: seq<byte>
    ghost var pages: nat
    ghost var logBefore: seq<Op>
    ghost var finished: bool

    ghost predicate Valid()
      reads this, flash, buffer, firstBlockContents
      ensures Valid() ==> flash.Valid() && |received| == pages * PAGE + bufferPos && bufferPos < PAGE
    {
      ValidAt(bufferPos)
    }

    ghost predicate ValidAt(pos: nat)
      reads this, flash, buffer, firstBlockContents
    {
      && flash.Valid() && buffer != firstBlockContents && buffer.Length == firstBlockContents.Length == PAGE
      && |received| == pages * PAGE + pos && pos < PAGE && (finished || totalByteCounter == |received|)
      && |received| <= flash.count * PAGE
      && buffer[..] == received[pages * PAGE..] + Filled(PAGE - pos, 0)
      && firstBlock == (pages == 0)
      && firstBlockContents[..] == (if pages >= 1 then received[..PAGE] else Filled(PAGE, 0))
      && flash.log == logBefore + if finished then StreamOps(received, pages) else LaterPages(received, pages)
    }

    constructor (flash: Flash, erasesFirst: bool)
      requires flash.Valid()
      ensures Valid() && this.flash == flash && this.erasesFirst == erasesFirst
      ensures received == [] && bufferPos == 0 && logBefore == flash.log && !finished && fresh(buffer)
      ensures fresh(firstBlockContents)
    {
      this.flash, this.erasesFirst := flash, erasesFirst;
      totalByteCounter, bufferPos, firstBlock := 0, 0, true;
      received, pages, logBefore, finished := [], 0, flash.log, false;
      buffer := new byte[PAGE](_ => 0);
      firstBlockContents := new byte[PAGE](_ => 0);
    }

    /** Data arrives. */
    method Receive(data: seq<byte>)
      requires Valid() && !finished && |received| + |data| <= flash.count * PAGE
      modifies this, flash, buffer, firstBlockContents
      ensures !finished
      ensures Valid() && received == old(received) + data
      ensures logBefore == if erasesFirst && old(received) == [] then old(flash.log) + [Erase] else old(logBefore)
    {
      hide ValidAt, Flash.Valid;
      Begin();
      ghost var base := logBefore;
      for x := 0 to |data|
        invariant Valid() && received == old(received) + data[..x] && logBefore == base && !finished
      {
        ReceiveByte(data[x]);
      }
    }

    /** On the first data: the zc95's writer erases the flash itself. */
    method Begin()
      requires Valid() && !finished
      modifies this, flash
      ensures Valid() && !finished && received == old(received)
      ensures logBefore == if erasesFirst && old(received) == [] then old(flash.log) + [Erase] else old(logBefore)
    {
      hide Run, AllFit;
      if totalByteCounter == 0 {
        if erasesFirst {
          flash.EraseAll();
          logBefore := logBefore + [Erase];
        }
        firstBlock := true;
      }
    }

    /** The body of its loop. */
    method ReceiveByte(b: byte)
      requires Valid() && !finished && |received| < flash.count * PAGE
      modifies this, flash, buffer, firstBlockContents
      ensures Valid() && received == old(received) + [b]
      ensures logBefore == old(logBefore) && finished == old(finished)
    {
      hide Run, AllFit, LaterPages, Filled;
      totalByteCounter := totalByteCounter + 1;
      buffer[bufferPos] := b;
      LaterPagesPrefix(received, received + [b], pages);
      OneMore(received, b, pages, buffer[..], old(buffer[..]));
      received := received + [b];
      if bufferPos == 255 {
        CompletePage();
      }
      bufferPos := Next8(bufferPos);
    }

    /** What happens once the buffer is full: the first page is kept back, any other goes to flash. */
    method CompletePage()
      requires flash.Valid() && buffer != firstBlockContents && buffer.Length == firstBlockContents.Length == PAGE
      requires totalByteCounter == |received| == pages * PAGE + PAGE <= flash.count * PAGE
      requires buffer[..] == received[pages * PAGE..] && firstBlock == (pages == 0)
      requires pages >= 1 ==> firstBlockContents[..] == received[..PAGE]
      requires !finished && flash.log == logBefore + LaterPages(received, pages)
      modifies this, flash, buffer, firstBlockContents
      ensures ValidAt(0) && received == old(received) && logBefore == old(logBefore) && bufferPos == old(bufferPos)
      ensures finished == old(finished)
    {
      hide Run, AllFit;
      if firstBlock {
        forall i | 0 <= i < PAGE {
          firstBlockContents[i] := buffer[i];
        }
        firstBlock := false;
        assert firstBlockContents[..] == buffer[..];
      } else {
        flash.WriteBuffer(buffer[..], totalByteCounter, pages + 1);
      }
      assert received[pages * PAGE..(pages + 1) * PAGE] == received[pages * PAGE..];
      assert LaterPages(received, pages + 1) == if pages == 0 then [] else
        LaterPages(received, pages) + [Program(pages, received[pages * PAGE..])];
      pages := pages + 1;
      forall i | 0 <= i < PAGE {
        buffer[i] := 0;
      }
      assert buffer[..] == Filled(PAGE, 0);
      assert received[pages * PAGE..] == [];
    }

    /** Throughout a transfer on erased flash the first page stays blank, whatever has been received. */
    lemma FirstPageHeldBack()
      requires Valid() && !finished && AllFit(logBefore, |flash.start|)
      requires Run(flash.start, logBefore) == Blank(flash.count * PAGE)
      ensures flash.cells == HeldBack(received, pages, flash.count) && flash.cells[..PAGE] == Blank(PAGE)
    {
      hide Blank, Run, LaterPages;
      LaterPagesCount(received, pages);
      RunAppend(flash.start, logBefore, LaterPages(received, pages));
      HeldBackRun(received, pages, flash.count);
    }

    /** The end of the transmission. Data comes in blocks of 128 bytes, which the assertions in WriteBuffer rely on. */
    method Finish()
      requires Valid() && !finished && (bufferPos == 0 || bufferPos == 128)
      modifies this, flash
      ensures Valid() && finished && flash.log == logBefore + StreamOps(received, pages)
      ensures received == old(received) && pages == old(pages) && logBefore == old(logBefore)
    {
      hide Run, AllFit;
      if bufferPos > 0 {
        if totalByteCounter % 256 != 0 {
          totalByteCounter := totalByteCounter + 128;
        }
        flash.WriteBuffer(buffer[..], totalByteCounter, pages + 1);
      }
      flash.WriteBuffer(firstBlockContents[..], 256, 1);
      finished := true;
    }

    /** The main loop of the zc624 erases the flash before a transfer begins. */
    method EraseBefore()
      requires Valid() && received == [] && !finished
      modifies this, flash
      ensures Valid() && received == [] && !finished && logBefore == flash.log == old(flash.log) + [Erase]
    {
      flash.EraseAll();
      logBefore := flash.log;
    }
  }

  //
  // Copying a file
  //

  /** How reading the file goes: whether it opens, after how many chunks reading fails (if it does) and what that
      read delivers, and whether it closes without error. */
  datatype Reading = Reading(opens: bool, failsAt: nat, partial: seq<byte>, closes: bool)

  /** The steps of a complete copy. */
  function CopyOps(file: seq<byte>, n: nat): seq<Op>
    requires n == PageCount(|file|)
  {
    [Erase] + if n == 0 then [Program(0, Filled(PAGE, 0))] else ImageOps(Padded(file), n)
  }

  /** Steps that stop short of the first page: nothing at all, or an erase and then other pages only. */
  predicate Incomplete(ops: seq<Op>) {
    ops != [] ==> ops[0] == Erase && forall i | 1 <= i < |ops| :: ops[i].Program? && ops[i].page >= 1
  }

  lemma LaterPagesIncomplete(p: seq<byte>, n: nat)
    requires n * PAGE <= |p|
    ensures Incomplete([Erase] + LaterPages(p, n))
  {
    LaterPagesCount(p, n);
    forall i | 0 <= i < |LaterPages(p, n)|
      ensures LaterPages(p, n)[i].Program? && LaterPages(p, n)[i].page >= 1
    {
      LaterPageAt(p, n, i);
    }
  }

  /** Until its last step, a copy is incomplete. */
  lemma CopyCutShort(file: seq<byte>, n: nat, k: nat)
    requires n == PageCount(|file|) && k < |CopyOps(file, n)|
    ensures Incomplete(CopyOps(file, n)[..k])
  {
    var p := Padded(file);
    if n > 0 {
      LaterPagesCount(p, n);
      LaterPagesIncomplete(p, n);
      var all := [Erase] + LaterPages(p, n);
      assert CopyOps(file, n)[..k] == all[..k];
    }
  }

  /** The buffer after reading at most a page from position k * PAGE: sd_card_read zeroes it first. */
  function Chunk(file: seq<byte>, k: nat): (c: seq<byte>)
    requires k * PAGE <= |file|
    ensures |c| == PAGE
    ensures k * PAGE < |file| ==> k * PAGE + PAGE <= |Padded(file)| && c == Padded(file)[k * PAGE..k * PAGE + PAGE]
  {
    if |file| >= k * PAGE + PAGE then file[k * PAGE..k * PAGE + PAGE]
    else file[k * PAGE..] + Filled(k * PAGE + PAGE - |file|, 0)
  }

  /** The state of a copy after w chunks: the first is kept back, the others are written. */
  ghost predicate Copied(p: seq<byte>, w: nat, held: seq<byte>, ops: seq<Op>) {
    w * PAGE <= |p| && held == (if w >= 1 then p[..PAGE] else Filled(PAGE, 0)) && ops == [Erase] + LaterPages(p, w)
  }

  lemma CopiedNext(p: seq<byte>, w: nat, held: seq<byte>, ops: seq<Op>, chunk: seq<byte>)
    requires Copied(p, w, held, ops) && (w + 1) * PAGE <= |p| && chunk == p[w * PAGE..w * PAGE + PAGE]
    ensures if w == 0 then Copied(p, 1, chunk, ops) else Copied(p, w + 1, held, ops + [Program(w, chunk)])
  {
    if w >= 1 {
      assert LaterPages(p, w + 1) == LaterPages(p, w) + [Program(w, chunk)];
    }
  }

  lemma CopiedIncomplete(p: seq<byte>, w: nat, held: seq<byte>, ops: seq<Op>, junk: seq<byte>)
    requires Copied(p, w, held, ops)
    ensures Incomplete(ops) && (w >= 1 ==> Incomplete(ops + [Program(w, junk)]))
  {
    LaterPagesIncomplete(p, w);
  }

  /** copy_sd_card_file_to_flash. It reports success only after a complete copy; whatever goes wrong on the way,
      the first page stays erased. */
  method CopyFile(flash: Flash, file: seq<byte>, io: Reading) returns (ok: bool)
    requires flash.Valid() && |file| <= flash.count * PAGE
    requires |io.partial| <= PAGE && (io.failsAt * PAGE <= |file| ==> io.failsAt * PAGE + |io.partial| <= |file|)
    modifies flash
    ensures flash.Valid() && old(flash.log) <= flash.log
    ensures
      var ops := flash.log[|old(flash.log)|..];
      if io.opens && io.failsAt * PAGE > |file| then ok == io.closes && ops == CopyOps(file, PageCount(|file|))
      else !ok && Incomplete(ops)
  {
    hide Run, AllFit, LaterPages, Chunk, Copied, Filled, Incomplete;
    ghost var before := flash.log;
    if !io.opens {
      NothingIsIncomplete();
      assert flash.log[|before|..] == [];
      return false;
    }
    flash.EraseAll();
    ghost var p, n, ops := Padded(file), PageCount(|file|), [Erase];
    var firstBlockContents := Filled(PAGE, 0);
    var firstBlock := true;
    var total, k := 0, 0;
    var bytesRead, result := PAGE, true;
    ghost var w := 0;
    CopiedNothing(p);
    while bytesRead == PAGE && result
      invariant flash.Valid() && flash.log == before + ops
      invariant total == k * PAGE <= |file| + PAGE && |firstBlockContents| == PAGE
      invariant result ==> k <= io.failsAt && (bytesRead == PAGE <==> k * PAGE <= |file|)
      invariant result ==> w <= n && (if k * PAGE <= |file| then w == k else w == n) && firstBlock == (w == 0)
      invariant if result then Copied(p, w, firstBlockContents, ops) else io.failsAt * PAGE <= |file| && Incomplete(ops)
      decreases |file| + PAGE - total
    {
      result := k != io.failsAt;
      var buffer;
      if result {
        buffer := Chunk(file, k);
        bytesRead := if |file| - total >= PAGE then PAGE else |file| - total;
      } else {
        buffer := io.partial + Filled(PAGE - |io.partial|, 0);
        bytesRead := |io.partial|;
        CopiedIncomplete(p, w, firstBlockContents, ops, buffer);
      }
      k, total := k + 1, total + 256;
      if bytesRead > 0 {
        if result {
          CopiedNext(p, w, firstBlockContents, ops, buffer);
        }
        if firstBlock {
          firstBlock := false;
          firstBlockContents := buffer;
        } else {
          flash.WriteBuffer(buffer, total, k);
          ops := ops + [Program(k - 1, buffer)];
        }
        w := w + 1;
      }
    }
    if result {
      flash.WriteBuffer(firstBlockContents, 256, 1);
      CopiedAll(file, n, firstBlockContents, ops);
      ops := ops + [Program(0, firstBlockContents)];
    }
    ok := io.closes && result;
    assert flash.log[|before|..] == ops;
  }

  lemma NothingIsIncomplete()
    ensures Incomplete([])
  {
  }

  lemma CopiedNothing(p: seq<byte>)
    ensures Copied(p, 0, Filled(PAGE, 0), [Erase])
  {
  }

  lemma CopiedAll(file: seq<byte>, n: nat, held: seq<byte>, ops: seq<Op>)
    requires n == PageCount(|file|) && Copied(Padded(file), n, held, ops)
    ensures ops + [Program(0, held)] == CopyOps(file, n)
  {
  }
}
