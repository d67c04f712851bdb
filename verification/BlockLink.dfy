/** The transfer of a firmware image to the zc624: the numbered, checksummed blocks of the sender (zc624.c), the
    I2C handler that takes them apart again (CI2cSlave.cpp), and the main loop that drains them into flash
    (zc624Bootloader.cpp). */
module BlockLink {
  import opened Bytes
  import opened Options
  import opened NorFlash
  import opened Sequences

  const BLOCK := 128
  const DATA_BLOCK_READ: byte := 0x41
  const FW_BLOCK_COUNT: byte := 0x42
  const DATA_BLOCK_WRITE: byte := 0x82
  const ERASE_FIRMWARE: byte := 0x83
  const ERASABLE: byte := 1
  const ERASE: byte := 2

  function Sum(s: seq<byte>): nat {
    if |s| == 0 then 0 else Sum(s[..|s| - 1]) + s[|s| - 1]
  }

  function Checksum(payload: seq<byte>): byte {
    Sum(payload) % 256
  }

  lemma ChecksumNext(s: seq<byte>, i: nat)
    requires i < |s|
    ensures Checksum(s[..i + 1]) == (Checksum(s[..i]) + s[i]) % 256
  {
    assert s[..i + 1][..i] == s[..i];
    var sum := Sum(s[..i]);
    assert sum == sum / 256 * 256 + sum % 256;
  }

  /** The 8-bit sum that both sides form of the payload. */
  method ComputeChecksum(payload: seq<byte>) returns (checksum: byte)
    ensures checksum == Checksum(payload)
  {
    hide Checksum;
    checksum := 0;
    assert Checksum(payload[..0]) == 0 by {
      EmptyChecksum();
      assert payload[..0] == [];
    }
    for n := 0 to |payload|
      invariant checksum == Checksum(payload[..n])
    {
      ChecksumNext(payload, n);
      checksum := (checksum + payload[n]) % 256;
    }
    assert payload[..|payload|] == payload;
  }

  lemma EmptyChecksum()
    ensures Checksum([]) == 0
  {
  }

  /** Block number, payload and checksum. */
  function Framed(block: byte, payload: seq<byte>): seq<byte> {
    [block] + payload + [Checksum(payload)]
  }

  /** The number of the k-th block, counting from 1 and wrapping. */
  function BlockNumber(k: nat): byte {
    if k == 0 then 1 else Next8(BlockNumber(k - 1))
  }

  lemma {:induction false} BlockNumberWraps(k: nat, q: nat, r: nat)
    requires k + 1 == q * 256 + r && r < 256
    ensures BlockNumber(k) == r
  {
    if k > 0 {
      if r > 0 {
        BlockNumberWraps(k - 1, q, r - 1);
      } else {
        BlockNumberWraps(k - 1, q - 1, 255);
      }
    }
  }

  //
  // The I2C handler of the zc624
  //

  /** The registers after a write that is not a data block: the register named takes the last byte. */
  function Registers(mem: seq<byte>, message: seq<byte>): (r: seq<byte>)
    requires |mem| == 256
    ensures |r| == 256
  {
    if |message| >= 2 && message[0] >= 0x80 && message[0] != DATA_BLOCK_WRITE then
      mem[message[0] := message[|message| - 1]]
    else mem
  }

  lemma NoRegisters(mem: seq<byte>)
    requires |mem| == 256
    ensures Registers(mem, []) == mem
  {
  }

  lemma ReadOnlyRegisters(mem: seq<byte>, message: seq<byte>)
    requires |mem| == 256 && ReadOnly(message)
    ensures Registers(mem, message) == Registers(mem, message[..1]) == mem
  {
  }

  lemma FirstRegisters(mem: seq<byte>, before: seq<byte>, message: seq<byte>)
    requires |mem| == 256 && before <= message && (StartsBlock(message) || |message| <= 1)
    ensures Registers(mem, before) == Registers(mem, message) == mem
  {
  }

  lemma RegistersNext(mem: seq<byte>, message: seq<byte>, b: byte)
    requires |mem| == 256 && message != []
    ensures Registers(mem, message + [b]) ==
            if message[0] >= 0x80 && message[0] != DATA_BLOCK_WRITE then Registers(mem, message)[message[0] := b]
            else Registers(mem, message)
  {
  }

  lemma Arrived(read: seq<byte>, fifo: seq<byte>, pending: seq<byte>, n: nat)
    requires n <= |pending|
    ensures read + (fifo + pending[..n]) + pending[n..] == read + fifo + pending
    ensures read == [] && fifo + pending[..n] != [] ==> (fifo + pending[..n])[0] == (read + fifo + pending)[0]
  {
  }

  lemma HandlerTook(read: seq<byte>, fifo: seq<byte>, pending: seq<byte>, n: nat)
    requires n <= |fifo|
    ensures (read + fifo[..n]) + fifo[n..] + pending == read + fifo + pending
  {
  }

  /** The handler's context. The message is what the master has sent since the last stop, as far as it was read. */
  class I2cSlave {
    const mem: array<byte>
    var memAddress: byte
    var memAddressWritten: bool
    var receivingDataBlock: bool
    var sendingDataBlock: bool
    const dataBlock: array<byte>
    var dataBlockIdx: nat
    var dataBlockReadIdx: nat
    ghost var message: seq<byte>

    ghost predicate Valid()
      reads this, mem, dataBlock
    {
      && mem != dataBlock && mem.Length == 256 && dataBlock.Length == 1 + BLOCK + 1
      && memAddressWritten == (message != []) && receivingDataBlock == StartsBlock(message)
      && (message != [] ==> memAddress == message[0])
      && (receivingDataBlock ==>
            dataBlockIdx == |BlockPart(message)| && dataBlock[..dataBlockIdx] == BlockPart(message))
    }

    constructor ()
      ensures Valid() && message == [] && fresh(mem) && fresh(dataBlock)
      ensures mem[ERASE_FIRMWARE] == ERASABLE
    {
      mem := new byte[256](i => if i == ERASE_FIRMWARE as int then ERASABLE else 0);
      dataBlock := new byte[1 + BLOCK + 1](_ => 0);
      memAddress, memAddressWritten, receivingDataBlock, sendingDataBlock := 0, false, false, false;
      dataBlockIdx, dataBlockReadIdx, message := 0, 0, [];
    }

    /** I2C_SLAVE_RECEIVE with some bytes in the receive buffer; tells how many of them it has taken. The request for
        a flash block waits for its two bytes. A byte for a register that is read only is not taken at all. */
    method OnReceive(fifo: seq<byte>) returns (taken: nat)
      requires Valid() && |fifo| >= 1
      requires message == [] && fifo[0] == DATA_BLOCK_READ ==> |fifo| >= 3
      modifies this, mem, dataBlock
      ensures Valid() && taken <= |fifo| && message == old(message) + fifo[..taken]
      ensures taken == 0 <==> ReadOnly(old(message))
      ensures old(message) == [] || StartsBlock(old(message)) ==> mem[..] == old(mem[..])
      ensures old(message) == [] && !StartsBlock(message) && message[0] != DATA_BLOCK_READ ==> taken == 1
      ensures old(message) != [] && !StartsBlock(old(message)) && !ReadOnly(old(message)) ==>
                taken == 1 && mem[..] == old(mem[..])[message[0] := fifo[0]]
      ensures ReadOnly(old(message)) ==> mem[..] == old(mem[..])
      ensures old(message) == [] && fifo[0] == DATA_BLOCK_READ ==>
        taken == 3 && sendingDataBlock && dataBlockReadIdx == (fifo[1] as int) + (fifo[2] as int) * 256
      ensures old(message) == [] && fifo[0] == FW_BLOCK_COUNT ==>
                taken == 1 && !sendingDataBlock && memAddress == FW_BLOCK_COUNT
    {
      if !memAddressWritten {
        memAddress := fifo[0];
        memAddressWritten := true;
        taken := 1;
        message := [fifo[0]];
        if memAddress == DATA_BLOCK_WRITE {
          receivingDataBlock := true;
          sendingDataBlock := false;
          dataBlockIdx := 0;
          forall i | 0 <= i < dataBlock.Length {
            dataBlock[i] := 0;
          }
          ReadAvailable(fifo[1..]);
          taken := |fifo|;
        } else if memAddress == DATA_BLOCK_READ {
          receivingDataBlock := false;
          sendingDataBlock := true;
          var low: int, high: int := fifo[1], fifo[2];
          dataBlockReadIdx := low + high * 256;
          taken := 3;
          message := fifo[..3];
        } else {
          sendingDataBlock := false;
        }
      } else if receivingDataBlock {
        ReadAvailable(fifo);
        taken := |fifo|;
      } else {
        taken := 0;
        if memAddress >= 0x80 {
          mem[memAddress] := fifo[0];
          taken := 1;
          message := message + [fifo[0]];
        }
      }
    }

    /** The loop over the available bytes: what does not fit is dropped. */
    method ReadAvailable(fifo: seq<byte>)
      requires Valid() && receivingDataBlock
      modifies this`dataBlockIdx, this`message, dataBlock
      ensures Valid() && message == old(message) + fifo
    {
      var n := |fifo|;
      while n > 0
        invariant 0 <= n <= |fifo| && Valid() && receivingDataBlock && message == old(message) + fifo[..|fifo| - n]
      {
        var rxByte := fifo[|fifo| - n];
        if dataBlockIdx < dataBlock.Length {
          dataBlock[dataBlockIdx] := rxByte;
          dataBlockIdx := dataBlockIdx + 1;
        }
        message := message + [rxByte];
        n := n - 1;
      }
    }

    /** A request for a flash block. */
    method ReceiveRequest(bytes: seq<byte>) returns (stuck: bool)
      requires Valid() && message == [] && bytes != [] && bytes[0] == DATA_BLOCK_READ
      modifies this, mem, dataBlock
      ensures Valid() && mem[..] == Registers(old(mem[..]), bytes) && stuck == (|bytes| != 3)
      ensures message == if |bytes| < 3 then [] else bytes[..3]
    {
      hide Registers, BlockPart;
      ReadOnlyRegisters(mem[..], bytes);
      if |bytes| < 3 {
        return true;
      }
      var taken := OnReceive(bytes);
      return |bytes| > 3;
    }

    /** The bytes of a message arriving in any portions while the handler runs. It is stuck when it takes nothing, and
        is called again and again for the byte that waits; or when it waits for the two bytes of a block request. */
    method ReceiveMessage(bytes: seq<byte>) returns (stuck: bool)
      requires Valid() && message == [] && bytes != []
      modifies this, mem, dataBlock
      ensures Valid() && mem[..] == Registers(old(mem[..]), bytes)
      ensures message == if !stuck then bytes
                         else if bytes[0] != DATA_BLOCK_READ then bytes[..1]
                         else if |bytes| < 3 then [] else bytes[..3]
      ensures stuck <==> ReadOnly(bytes) && (if bytes[0] == DATA_BLOCK_READ then |bytes| != 3 else |bytes| != 1)
    {
      hide Registers, BlockPart;
      if bytes[0] == DATA_BLOCK_READ {
        stuck := ReceiveRequest(bytes);
        return;
      }
      var fifo, pending := [], bytes;
      NoRegisters(mem[..]);
      while fifo + pending != []
        invariant Valid() && message + fifo + pending == bytes && mem[..] == Registers(old(mem[..]), message)
        invariant ReadOnly(bytes) ==> |message| <= 1
        decreases |fifo| + |pending|
      {
        var n: nat :| n <= |pending| && (fifo == [] ==> n >= 1);
        Arrived(message, fifo, pending, n);
        fifo, pending := fifo + pending[..n], pending[n..];
        ghost var before := message;
        var taken := OnReceive(fifo);
        if taken == 0 {
          assert message == before == bytes[..1];
          ReadOnlyRegisters(old(mem[..]), bytes);
          return true;
        }
        HandlerTook(before, fifo, pending, taken);
        if before == [] || before[0] == DATA_BLOCK_WRITE {
          FirstRegisters(old(mem[..]), before, message);
        } else {
          RegistersNext(old(mem[..]), before, fifo[0]);
          assert fifo[..1] == [fifo[0]];
        }
        fifo := fifo[taken..];
      }
      assert message + fifo + pending == message;
      stuck := false;
    }

    /** I2C_SLAVE_REQUEST: a flash block, the two bytes of the block count, or the next register. */
    method OnRequest(flash: seq<byte>, fwBlockCount: nat) returns (bytes: seq<byte>)
      requires Valid() && message == [] && fwBlockCount < 0x1_0000
      requires sendingDataBlock ==> dataBlockReadIdx * BLOCK + BLOCK <= |flash|
      modifies this`memAddress
      ensures Valid()
      ensures memAddress ==
              if sendingDataBlock || old(memAddress) == FW_BLOCK_COUNT then old(memAddress) else Next8(old(memAddress))
      ensures bytes ==
              if sendingDataBlock then flash[dataBlockReadIdx * BLOCK..dataBlockReadIdx * BLOCK + BLOCK]
              else if old(memAddress) == FW_BLOCK_COUNT then [fwBlockCount % 256, fwBlockCount / 256]
              else [mem[old(memAddress)]]
    {
      if sendingDataBlock {
        bytes := flash[dataBlockReadIdx * BLOCK..dataBlockReadIdx * BLOCK + BLOCK];
      } else if memAddress == FW_BLOCK_COUNT {
        bytes := [fwBlockCount % 256, fwBlockCount / 256];
      } else {
        bytes := [mem[memAddress]];
        memAddress := Next8(memAddress);
      }
    }

    method SetValue(reg: byte, value: byte)
      requires Valid()
      modifies mem
      ensures Valid() && mem[..] == old(mem[..])[reg := value]
    {
      mem[reg] := value;
    }

    /** I2C_SLAVE_FINISH: what it hands to the callback depends on the message alone, not on how it arrived. */
    method OnFinish() returns (block: Option<seq<byte>>)
      requires Valid()
      modifies this`memAddressWritten, this`receivingDataBlock, this`message
      ensures Valid() && message == []
      ensures block == if StartsBlock(old(message)) then Some(BlockPart(old(message))) else None
    {
      memAddressWritten := false;
      block := None;
      if receivingDataBlock {
        block := Some(dataBlock[..dataBlockIdx]);
        receivingDataBlock := false;
      }
      message := [];
    }
  }

  /** A message to a register that the master can only read. */
  predicate ReadOnly(message: seq<byte>) {
    message != [] && message[0] < 0x80
  }

  /** For instance, a value for register 0x40. */
  method StuckOnReadOnly(slave: I2cSlave, value: byte) returns (stuck: bool, taken: nat)
    requires slave.Valid() && slave.message == []
    modifies slave, slave.mem, slave.dataBlock
    ensures stuck && taken == 0 && slave.message == [0x40] && slave.mem[..] == old(slave.mem[..])
  {
    stuck := slave.ReceiveMessage([0x40, value]);
    assert slave.message == [0x40];
    taken := slave.OnReceive([value]);
  }

  predicate StartsBlock(message: seq<byte>) {
    message != [] && message[0] == DATA_BLOCK_WRITE
  }

  /** What follows the register address, as far as the block buffer holds it. */
  function BlockPart(message: seq<byte>): (s: seq<byte>)
    requires message != []
    ensures |s| <= 1 + BLOCK + 1
  {
    if |message| - 1 <= 1 + BLOCK + 1 then message[1..] else message[1..1 + 1 + BLOCK + 1]
  }

  //
  // The boot loader of the zc624: callback and main loop
  //

  /** Another block of 128 bytes ends in the middle or at the end of a page. */
  lemma HalfPage(n: nat, half: nat, n': nat, half': nat)
    requires half == 0 || half == BLOCK
    requires n * PAGE + half + BLOCK == n' * PAGE + half' && half' < PAGE
    ensures half' == 0 || half' == BLOCK
  {
  }

  predicate IsBlock(data: seq<byte>, expected: byte) {
    |data| == 1 + BLOCK + 1 && data[|data| - 1] == Checksum(data[1..1 + BLOCK]) && data[0] == expected
  }

  class Bootloader {
    const slave: I2cSlave
    const flash: Flash
    const writer: StreamWriter
    var dataReceivedBuffer: seq<byte>
    var dataReceived: bool
    var endOfTransmission: bool
    var currentBlock: byte
    ghost var accepted: nat

    /** Everything a step of the boot loader may change. */
    ghost function Parts(): set<object> {
      {this, slave, slave.mem, slave.dataBlock, flash, writer, writer.buffer, writer.firstBlockContents}
    }

    ghost predicate Valid()
      reads Parts()
    {
      && writer.flash == flash && !writer.erasesFirst && slave.Valid() && writer.Valid()
      && {slave.mem, slave.dataBlock} !! {writer.buffer, writer.firstBlockContents}
      && currentBlock == BlockNumber(accepted)
      && (writer.bufferPos == 0 || writer.bufferPos == BLOCK)
      && (dataReceived ==> |dataReceivedBuffer| == 1 + BLOCK + 1)
    }

    constructor (flash: Flash)
      requires flash.Valid()
      ensures Valid() && this.flash == flash && fresh(Parts() - {flash})
      ensures Idle() && writer.received == [] && !writer.finished && slave.mem[ERASE_FIRMWARE] == ERASABLE
      ensures accepted == 0
      ensures writer.logBefore == flash.log
    {
      hide StreamWriter.Valid, Flash.Valid;
      this.flash := flash;
      slave := new I2cSlave();
      writer := new StreamWriter(flash, false);
      dataReceivedBuffer, dataReceived, endOfTransmission, currentBlock, accepted := [], false, false, 1, 0;
    }

    /** Nothing is waiting for the main loop. */
    ghost predicate Idle()
      reads this, slave, slave.mem
    {
      !dataReceived && !endOfTransmission && slave.message == [] && slave.mem.Length == 256
      && slave.mem[ERASE_FIRMWARE] != ERASE
    }

    /** is_data_buffer_valid: a block is taken only with the right length, checksum and number, and the number
        then moves on. */
    method IsDataBufferValid(data: seq<byte>) returns (ok: bool)
      requires Valid()
      modifies this`currentBlock, this`accepted
      ensures Valid() && ok == IsBlock(data, old(currentBlock))
      ensures ok <==> |data| == 130 && data[129] == Checksum(data[1..129]) && data[0] == old(currentBlock)
      ensures accepted == old(accepted) + if ok then 1 else 0
    {
      hide Checksum, StreamWriter.Valid, Flash.Valid, I2cSlave.Valid;
      if |data| != 1 + BLOCK + 1 {
        return false;
      }
      var checksum := ComputeChecksum(data[1..1 + BLOCK]);
      if checksum != data[|data| - 1] {
        return false;
      }
      if data[0] != currentBlock {
        return false;
      }
      currentBlock := Next8(currentBlock);
      accepted := accepted + 1;
      return true;
    }

    /** i2c_datablock_received, called from the interrupt handler. */
    method DatablockReceived(data: seq<byte>)
      requires Valid() && |data| <= 1 + BLOCK + 1
      modifies this
      ensures Valid() && endOfTransmission == (old(endOfTransmission) || data == [0])
      ensures
        if IsBlock(data, old(currentBlock)) then
          dataReceived && dataReceivedBuffer == data && accepted == old(accepted) + 1
        else
          dataReceived == old(dataReceived) && dataReceivedBuffer == old(dataReceivedBuffer)
          && accepted == old(accepted)
    {
      if |data| == 1 && data[0] == 0 {
        endOfTransmission := true;
      } else {
        var ok := IsDataBufferValid(data);
        if ok {
          dataReceivedBuffer := data;
          dataReceived := true;
        }
      }
    }

    /** One turn of the main loop, once it runs: an erase drops whatever was waiting; otherwise a waiting block
        goes to flash, and the end of the transmission is acted upon only after it. */
    method MainLoop()
      requires Valid() && slave.message == []
      requires slave.mem[ERASE_FIRMWARE] == ERASE ==> writer.received == [] && !writer.finished
      requires slave.mem[ERASE_FIRMWARE] != ERASE && (dataReceived || endOfTransmission) ==> !writer.finished
      requires dataReceived ==> |writer.received| + BLOCK <= flash.count * PAGE
      modifies Parts()
      ensures Valid() && Idle() && slave.mem.Length == 256
      ensures
        if old(slave.mem[ERASE_FIRMWARE]) == ERASE then
          && writer.received == [] && !writer.finished && accepted == 0
          && writer.logBefore == flash.log == old(flash.log) + [Erase]
          && slave.mem[..] == old(slave.mem[..])[ERASE_FIRMWARE := ERASABLE]
        else
          && slave.mem[..] == old(slave.mem[..])
          && writer.received ==
              old(writer.received) + (if old(dataReceived) then old(dataReceivedBuffer)[1..1 + BLOCK] else [])
          && writer.logBefore == old(writer.logBefore) && accepted == old(accepted)
          && writer.finished == (old(writer.finished) || old(endOfTransmission))
          && (old(endOfTransmission) ==> flash.log == writer.logBefore + StreamOps(writer.received, writer.pages))
    {
      hide Run, AllFit, LaterPages, StreamOps, Filled, BlockPart, StreamWriter.ValidAt, Flash.Valid;
      if slave.mem[ERASE_FIRMWARE] == ERASE {
        writer.EraseBefore();
        dataReceived := false;
        endOfTransmission := false;
        currentBlock, accepted := 1, 0;
        slave.SetValue(ERASE_FIRMWARE, ERASABLE);
      }
      if dataReceived {
        ghost var n, half := writer.pages, writer.bufferPos;
        writer.Receive(dataReceivedBuffer[1..1 + BLOCK]);
        HalfPage(n, half, writer.pages, writer.bufferPos);
        dataReceived := false;
      }
      if endOfTransmission {
        writer.Finish();
        endOfTransmission := false;
      }
    }

    /** The master reads: the request, a restart, and the reply of a flash block. */
    method ReadBlock(blk: nat) returns (data: seq<byte>)
      requires Valid() && Idle() && blk < 0x1_0000 && blk * BLOCK + BLOCK <= flash.count * PAGE
      modifies slave, slave.mem, slave.dataBlock
      ensures Valid() && Idle() && slave.mem[..] == old(slave.mem[..])
      ensures data == flash.cells[blk * BLOCK..blk * BLOCK + BLOCK]
    {
      hide StreamWriter.Valid, BlockNumber;
      var low, high := blk % 256, blk / 256;
      var taken := slave.OnReceive([DATA_BLOCK_READ, low, high]);
      var none := slave.OnFinish();
      data := slave.OnRequest(flash.cells, 0);
    }

    /** The same for the number of blocks that the firmware takes, which the master puts together again. */
    method ReadBlockCount(fwBlockCount: nat) returns (blocks: nat)
      requires Valid() && Idle() && fwBlockCount < 0x1_0000
      modifies slave, slave.mem, slave.dataBlock
      ensures Valid() && Idle() && slave.mem[..] == old(slave.mem[..])
      ensures blocks == fwBlockCount
    {
      hide StreamWriter.Valid, BlockNumber;
      var taken := slave.OnReceive([FW_BLOCK_COUNT]);
      var none := slave.OnFinish();
      var reply := slave.OnRequest(flash.cells, fwBlockCount);
      var low: int, high: int := reply[0], reply[1];
      blocks := low + high * 256;
    }

    /** A message from the master, not to a register that is read only, and the stop condition after it. */
    method Transaction(message: seq<byte>)
      requires Valid() && slave.message == [] && message != [] && !ReadOnly(message)
      modifies this, slave, slave.mem, slave.dataBlock
      ensures Valid() && slave.message == []
      ensures slave.mem[..] == Registers(old(slave.mem[..]), message)
      ensures
        if StartsBlock(message) then
          && endOfTransmission == (old(endOfTransmission) || BlockPart(message) == [0])
          && if IsBlock(BlockPart(message), old(currentBlock)) then
               dataReceived && dataReceivedBuffer == BlockPart(message) && accepted == old(accepted) + 1
             else
               dataReceived == old(dataReceived) && dataReceivedBuffer == old(dataReceivedBuffer)
               && accepted == old(accepted)
        else
          && endOfTransmission == old(endOfTransmission) && dataReceived == old(dataReceived)
          && dataReceivedBuffer == old(dataReceivedBuffer) && accepted == old(accepted)
    {
      hide StreamWriter.Valid, Registers, IsBlock;
      var stuck := slave.ReceiveMessage(message);
      var block := slave.OnFinish();
      match block
      case None =>
      case Some(data) => DatablockReceived(data);
    }
  }

  //
  // The sender
  //

  function BlockCount(n: nat): (k: nat)
    ensures k * BLOCK - BLOCK < n <= k * BLOCK
  {
    (n + BLOCK - 1) / BLOCK
  }

  /** What is sent of a file: zero-padded to whole blocks. */
  function Blocked(file: seq<byte>): (s: seq<byte>)
    ensures |s| == BlockCount(|file|) * BLOCK && s[..|file|] == file
  {
    file + Filled(BlockCount(|file|) * BLOCK - |file|, 0)
  }

  function BlockOf(file: seq<byte>, k: nat): (c: seq<byte>)
    requires k * BLOCK <= |file|
    ensures |c| == BLOCK
    ensures k * BLOCK < |file| ==>
              k * BLOCK + BLOCK <= |Blocked(file)| && c == Blocked(file)[k * BLOCK..k * BLOCK + BLOCK]
  {
    if |file| >= k * BLOCK + BLOCK then file[k * BLOCK..k * BLOCK + BLOCK]
    else file[k * BLOCK..] + Filled(k * BLOCK + BLOCK - |file|, 0)
  }

  lemma FrameIsBlock(block: byte, payload: seq<byte>)
    requires |payload| == BLOCK
    ensures
      var message := [DATA_BLOCK_WRITE] + Framed(block, payload);
      && StartsBlock(message) && BlockPart(message) == Framed(block, payload)
      && IsBlock(Framed(block, payload), block) && Framed(block, payload)[1..1 + BLOCK] == payload
  {
    hide Checksum;
    var data := Framed(block, payload);
    assert data[1..1 + BLOCK] == payload;
    assert ([DATA_BLOCK_WRITE] + data)[1..] == data;
  }

  lemma NumbersOf(boot: Bootloader)
    requires boot.Valid()
    ensures boot.currentBlock == BlockNumber(boot.accepted)
    ensures
      var w := boot.writer;
      |w.received| == w.pages * PAGE + w.bufferPos && w.bufferPos < PAGE
      && boot.flash.log ==
         w.logBefore + if w.finished then StreamOps(w.received, w.pages) else LaterPages(w.received, w.pages)
  {
  }

  lemma EndMarker()
    ensures
      var message := [DATA_BLOCK_WRITE, 0];
      StartsBlock(message) && BlockPart(message) == [0] && forall b: byte :: !IsBlock([0], b)
  {
  }

  /** zc624_send_buffer, and the main loop of the receiver draining the block before the next message. */
  method SendBuffer(boot: Bootloader, payload: seq<byte>, block: byte)
    requires boot.Valid() && boot.Idle() && !boot.writer.finished
    requires |payload| == BLOCK && |boot.writer.received| + BLOCK <= boot.flash.count * PAGE
    requires block == boot.currentBlock
    modifies boot.Parts()
    ensures boot.Valid() && boot.Idle() && !boot.writer.finished
    ensures boot.writer.received == old(boot.writer.received) + payload && boot.accepted == old(boot.accepted) + 1
    ensures boot.writer.logBefore == old(boot.writer.logBefore) && boot.slave.mem[..] == old(boot.slave.mem[..])
    ensures boot.currentBlock == Next8(old(boot.currentBlock))
  {
    hide Checksum, StreamWriter.Valid, Flash.Valid, I2cSlave.Valid, Bootloader.Valid, IsBlock, BlockPart, StartsBlock;
    var checksum := ComputeChecksum(payload);
    var message := [DATA_BLOCK_WRITE, block] + payload + [checksum];
    assert message == [DATA_BLOCK_WRITE] + Framed(block, payload);
    FrameIsBlock(block, payload);
    NumbersOf(boot);
    boot.Transaction(message);
    boot.MainLoop();
    NumbersOf(boot);
  }

  /** zc624_clear_firmware_on: erase by way of the register, which reads as erasable again once the main loop has
      done it. */
  method ClearFirmware(boot: Bootloader) returns (ok: bool)
    requires boot.Valid() && boot.Idle() && boot.writer.received == [] && !boot.writer.finished
    modifies boot.Parts()
    ensures boot.Valid() && boot.Idle() && boot.writer.received == [] && !boot.writer.finished
    ensures ok == (old(boot.slave.mem[ERASE_FIRMWARE]) == ERASABLE)
    ensures if ok then
              boot.writer.logBefore == boot.flash.log == old(boot.flash.log) + [Erase] && boot.currentBlock == 1
            else boot.flash.log == old(boot.flash.log)
  {
    hide StreamWriter.Valid, Flash.Valid, Bootloader.Valid;
    var regVal := boot.slave.mem[ERASE_FIRMWARE];
    if regVal != ERASABLE {
      return false;
    }
    boot.Transaction([ERASE_FIRMWARE, ERASE]);
    boot.MainLoop();
    NumbersOf(boot);
    ok := boot.slave.mem[ERASE_FIRMWARE] == ERASABLE;
  }

  /** zc624_send_sd_card_file on a link that loses nothing: the receiver gets the zero-padded file block by block,
      and the end marker after the last block. Whatever fails on the way, the first page stays erased. */
  method SendFile(boot: Bootloader, file: seq<byte>, io: Reading) returns (ok: bool)
    requires boot.Valid() && boot.Idle() && boot.writer.received == [] && !boot.writer.finished
    requires BlockCount(|file|) * BLOCK <= boot.flash.count * PAGE
    requires |io.partial| <= BLOCK && (io.failsAt * BLOCK <= |file| ==> io.failsAt * BLOCK + |io.partial| <= |file|)
    modifies boot.Parts()
    ensures boot.Valid() && boot.Idle()
    ensures
      var erasable := old(boot.slave.mem[ERASE_FIRMWARE]) == ERASABLE;
      if erasable && io.opens && io.failsAt * BLOCK > |file| then
        && ok == io.closes && boot.writer.finished && boot.writer.received == Blocked(file)
        && boot.flash.log == old(boot.flash.log) + [Erase] + StreamOps(Blocked(file), boot.writer.pages)
      else
        && !ok && !boot.writer.finished
        && boot.flash.log == old(boot.flash.log) +
           if erasable then [Erase] + LaterPages(boot.writer.received, boot.writer.pages) else []
  {
    hide StreamWriter.ValidAt, StreamWriter.Valid, Flash.Valid, Bootloader.Valid, I2cSlave.Valid, Run, Filled,
         LaterPages, StreamOps, BlockNumber;
    var cleared := ClearFirmware(boot);
    if !cleared {
      return false;
    }
    ghost var base := boot.flash.log;
    NumbersOf(boot);
    if !io.opens {
      return false;
    }
    ghost var s, n := Blocked(file), BlockCount(|file|);
    var k, block := 0, 1;
    var bytesRead, result := BLOCK, true;
    ghost var w := 0;
    while bytesRead == BLOCK && result
      invariant boot.Valid() && boot.Idle() && !boot.writer.finished && boot.writer.logBefore == base
      invariant k * BLOCK <= |file| + BLOCK && block == boot.currentBlock
      invariant result ==> k <= io.failsAt && (bytesRead == BLOCK <==> k * BLOCK <= |file|)
      invariant result ==>
                  w <= n && (if k * BLOCK <= |file| then w == k else w == n) && boot.writer.received == s[..w * BLOCK]
      invariant !result ==> io.failsAt * BLOCK <= |file|
      decreases |file| + BLOCK - k * BLOCK
    {
      result := k != io.failsAt;
      var buffer;
      if result {
        buffer := BlockOf(file, k);
        bytesRead := if |file| - k * BLOCK >= BLOCK then BLOCK else |file| - k * BLOCK;
      } else {
        buffer := io.partial + Filled(BLOCK - |io.partial|, 0);
        bytesRead := |io.partial|;
      }
      k := k + 1;
      if bytesRead > 0 {
        assert result ==> s[..w * BLOCK] + buffer == s[..(w + 1) * BLOCK];
        SendBuffer(boot, buffer, block);
        block := Next8(block);
        w := w + 1;
      }
    }
    if result {
      EndMarker();
      boot.Transaction([DATA_BLOCK_WRITE, 0]);
      boot.MainLoop();
    }
    NumbersOf(boot);
    ok := io.closes && result;
  }

  /** zc624_xmodem_data_received_send: blocks that come in by XMODEM are passed on as they arrive. */
  class Forwarder {
    const boot: Bootloader
    var block: byte
    var totalByteCounter: nat

    ghost predicate Valid()
      reads this, boot, boot.Parts()
    {
      && this !in boot.Parts() && boot.Valid() && boot.Idle() && !boot.writer.finished
      && totalByteCounter == |boot.writer.received| && (totalByteCounter > 0 ==> block == boot.currentBlock)
      && (totalByteCounter == 0 ==> block == 1)
    }

    constructor (boot: Bootloader)
      requires boot.Valid() && boot.Idle() && !boot.writer.finished && boot.writer.received == []
      ensures Valid() && this.boot == boot && totalByteCounter == 0
    {
      this.boot, block, totalByteCounter := boot, 1, 0;
    }

    /** A block from the host; before the first one the flash of the zc624 is erased. */
    method Data(data: seq<byte>) returns (ok: bool)
      requires Valid() && |boot.writer.received| + BLOCK <= boot.flash.count * PAGE
      modifies this, boot.Parts()
      ensures boot.Valid() && boot.Idle() && !boot.writer.finished
      ensures ok <==>
              |data| == BLOCK && (old(boot.writer.received) == [] ==> old(boot.slave.mem[ERASE_FIRMWARE]) == ERASABLE)
      ensures ok ==> Valid() && boot.writer.received == old(boot.writer.received) + data
      ensures ok && old(boot.writer.received) == [] ==> boot.writer.logBefore == old(boot.flash.log) + [Erase]
      ensures ok && old(boot.writer.received) != [] ==> boot.writer.logBefore == old(boot.writer.logBefore)
      ensures !ok ==> boot.writer.received == old(boot.writer.received)
    {
      hide StreamWriter.Valid, Flash.Valid, Bootloader.Valid;
      if totalByteCounter == 0 {
        var cleared := ClearFirmware(boot);
        if !cleared {
          return false;
        }
      }
      if |data| != BLOCK {
        return false;
      }
      SendBuffer(boot, data, block);
      block := Next8(block);
      totalByteCounter := totalByteCounter + |data|;
      ok := true;
    }

    /** The end: all that was passed on is in flash, the first page last. */
    method Finish()
      requires Valid()
      modifies boot.Parts()
      ensures boot.Valid() && boot.writer.finished && boot.writer.received == old(boot.writer.received)
      ensures boot.flash.log == old(boot.writer.logBefore) + StreamOps(boot.writer.received, boot.writer.pages)
    {
      hide StreamWriter.Valid, Flash.Valid, Bootloader.Valid, StartsBlock, BlockPart, IsBlock;
      EndMarker();
      boot.Transaction([DATA_BLOCK_WRITE, 0]);
      boot.MainLoop();
    }
  }

  lemma PaddedBlocks(file: seq<byte>)
    ensures PageCount(|Blocked(file)|) == PageCount(|file|) && Padded(Blocked(file)) == Padded(file)
    ensures |Blocked(file)| >= PAGE <==> |file| > BLOCK
  {
    var n, k := BlockCount(|file|), PageCount(|file|);
    assert n <= 2 * k;
  }

  /** A file of more than one block arrives as a copy would have put it there; a shorter one is not written, and
      leaves a first page of zeros. */
  lemma TransferRun(file: seq<byte>, n: nat, count: nat)
    requires n * PAGE <= |Blocked(file)| < n * PAGE + PAGE && PageCount(|file|) <= count && count >= 1
    ensures AllFit(StreamOps(Blocked(file), n), count * PAGE)
    ensures Run(Blank(count * PAGE), StreamOps(Blocked(file), n)) ==
            if |file| > BLOCK then Padded(file) + Blank(count * PAGE - |Padded(file)|)
            else Filled(PAGE, 0) + Blank(count * PAGE - PAGE)
  {
    hide Run, StreamOps, Blocked, Blank, Filled, AllFit, Padded;
    PaddedBlocks(file);
    StreamRun(Blocked(file), n, count, count * PAGE);
  }

  /** For instance, a file of 128 ones. */
  lemma ShortTransferFails(file: seq<byte>)
    requires file == seq(BLOCK, _ => 1)
    ensures |Blocked(file)| < PAGE && AllFit(StreamOps(Blocked(file), 0), PAGE)
    ensures !(file <= Run(Blank(PAGE), StreamOps(Blocked(file), 0)))
  {
    hide Run, StreamOps, AllFit;
    assert BlockCount(BLOCK) == 1;
    TransferRun(file, 0, 1);
    assert (Filled(PAGE, 0) + Blank(0))[0] == 0 != file[0];
  }

  //
  // A link that loses or damages blocks, and a main loop that comes too late
  //

  /** The receiver takes a block just when it carries the next number: of the blocks that reach it, given by
      their position in the sender's order (from 1), these are taken after it has already taken some. */
  function Taken(arriving: seq<nat>, taken: nat): seq<nat> {
    if arriving == [] then []
    else if arriving[0] % 256 == BlockNumber(taken) then [arriving[0]] + Taken(arriving[1..], taken + 1)
    else Taken(arriving[1..], taken)
  }

  /** Whatever is lost, the k-th block taken is a k-th block modulo 256; so as long as fewer than 256 blocks are
      lost in a row, nothing is ever taken out of place. */
  lemma {:induction false} TakenInStep(arriving: seq<nat>, taken: nat, k: nat)
    requires k < |Taken(arriving, taken)|
    ensures Taken(arriving, taken)[k] % 256 == BlockNumber(taken + k)
  {
    if arriving[0] % 256 == BlockNumber(taken) {
      if k > 0 {
        TakenInStep(arriving[1..], taken + 1, k - 1);
      }
    } else {
      TakenInStep(arriving[1..], taken, k);
    }
  }

  /** If every block arrives, every block is taken, however many there are. */
  lemma {:induction false} AllTaken(n: nat, taken: nat)
    ensures
      var arriving := seq(n, i requires 0 <= i < n => (taken + 1 + i) as nat);
      Taken(arriving, taken) == arriving
    decreases n
  {
    if n > 0 {
      var arriving := seq(n, i requires 0 <= i < n => (taken + 1 + i) as nat);
      var rest := seq(n - 1, i requires 0 <= i < n - 1 => (taken + 1 + 1 + i) as nat);
      assert arriving[1..] == rest;
      BlockNumberWraps(taken, (taken + 1) / 256, (taken + 1) % 256);
      AllTaken(n - 1, taken + 1);
    }
  }

  /** A block with one payload byte damaged is refused. */
  lemma DamageDetected(block: byte, payload: seq<byte>, i: nat, b: byte, expected: byte)
    requires |payload| == BLOCK && i < BLOCK && b != payload[i]
    ensures !IsBlock(Framed(block, payload)[1 + i := b], expected)
  {
    var data, damaged := Framed(block, payload), payload[i := b];
    assert data[1 + i := b][1..1 + BLOCK] == damaged;
    SumChanged(payload, i, b);
    DifferentRemainder(Sum(payload), Sum(damaged), b - payload[i]);
  }

  lemma {:induction false} SumChanged(s: seq<byte>, i: nat, b: byte)
    requires i < |s|
    ensures Sum(s[i := b]) == Sum(s) + b - s[i]
  {
    var n := |s| - 1;
    if i < n {
      assert s[i := b][..n] == s[..n][i := b];
      SumChanged(s[..n], i, b);
    } else {
      assert s[i := b][..n] == s[..n];
    }
  }

  lemma DifferentRemainder(x: nat, y: nat, d: int)
    requires y == x + d && d != 0 && -256 < d < 256
    ensures x % 256 != y % 256
  {
    var q := y / 256 - x / 256;
    assert d == 256 * q + (y % 256 - x % 256);
  }

  /** What may happen on a link that loses blocks: the block at this position of the sender's order arrives, or
      something that no block number makes acceptable; and the main loop has its turn. */
  datatype Event = Block(position: nat, payload: seq<byte>) | Noise(data: seq<byte>) | Drain

  predicate Possible(e: Event) {
    match e
    case Block(_, payload) => |payload| == BLOCK
    case Noise(data) => Garbled(BlockPart([DATA_BLOCK_WRITE] + data))
    case Drain => true
  }

  predicate Garbled(data: seq<byte>) {
    data != [0] && (|data| != 1 + BLOCK + 1 || data[|data| - 1] != Checksum(data[1..1 + BLOCK]))
  }

  /** Where the blocks that arrive stand in the sender's order. */
  function Positions(events: seq<Event>): seq<nat> {
    if events == [] then []
    else (if events[0].Block? then [events[0].position] else []) + Positions(events[1..])
  }

  /** The events without what is refused, after this many blocks have been taken. */
  function Kept(events: seq<Event>, taken: nat): (r: seq<Event>)
    ensures |r| <= |events|
  {
    if events == [] then []
    else
      match events[0]
      case Block(position, _) =>
        if position % 256 == BlockNumber(taken) then [events[0]] + Kept(events[1..], taken + 1)
        else Kept(events[1..], taken)
      case Noise(_) => Kept(events[1..], taken)
      case Drain => [Drain] + Kept(events[1..], taken)
  }

  lemma {:induction false} KeptAreTaken(events: seq<Event>, taken: nat)
    ensures Positions(Kept(events, taken)) == Taken(Positions(events), taken)
    ensures |Sent(Kept(events, taken))| == |Taken(Positions(events), taken)|
    ensures (forall e | e in events :: Possible(e)) ==> forall p | p in Sent(Kept(events, taken)) :: |p| == BLOCK
  {
    if events != [] {
      var rest := events[1..];
      var next := if events[0].Block? && events[0].position % 256 == BlockNumber(taken) then taken + 1 else taken;
      KeptAreTaken(rest, next);
      var kept := Kept(events, taken);
      assert forall e | e in rest :: e in events;
      if events[0].Block? {
        assert Positions(events)[0] == events[0].position && Positions(events)[1..] == Positions(rest);
      } else {
        assert Positions(events) == Positions(rest);
      }
      if next == taken + 1 || events[0].Drain? {
        assert kept[0] == events[0] && kept[1..] == Kept(rest, next);
        assert Possible(events[0]) || !(forall e | e in events :: Possible(e));
      } else {
        assert kept == Kept(rest, next);
      }
    }
  }

  /** The mailbox between interrupt handler and main loop holds one block. */
  function Stored(events: seq<Event>, mailbox: Option<seq<byte>>): seq<seq<byte>> {
    if events == [] then []
    else
      match events[0]
      case Block(_, p) => Stored(events[1..], Some(p))
      case Noise(_) => Stored(events[1..], mailbox)
      case Drain => Waiting(mailbox) + Stored(events[1..], None)
  }

  function Sent(events: seq<Event>): seq<seq<byte>> {
    if events == [] then []
    else (if events[0].Block? then [events[0].payload] else []) + Sent(events[1..])
  }

  /** The main loop comes between any two blocks, and after the last one. */
  predicate DrainedBetween(events: seq<Event>) {
    forall i | 0 <= i < |events| && events[i].Block? :: i + 1 < |events| && events[i + 1].Drain?
  }

  function Waiting(mailbox: Option<seq<byte>>): seq<seq<byte>> {
    if mailbox.Some? then [mailbox.value] else []
  }

  lemma {:induction false} StoredFrom(events: seq<Event>, mailbox: Option<seq<byte>>)
    requires forall e | e in events :: !e.Noise?
    ensures |Stored(events, mailbox)| <= |Waiting(mailbox) + Sent(events)|
    ensures Stored(events, mailbox) == Waiting(mailbox) + Sent(events) <==>
            DrainedBetween(events) && (mailbox.Some? ==> events != [] && events[0].Drain?)
  {
    if events != [] {
      hide DrainedBetween;
      var rest := events[1..];
      DrainedTail(events);
      match events[0]
      case Drain =>
        StoredFrom(rest, None);
        SamePrefix(Waiting(mailbox), Stored(rest, None), Sent(rest));
        assert Waiting(None) + Sent(rest) == Sent(rest);
      case Block(_, p) =>
        StoredFrom(rest, Some(p));
        assert Waiting(Some(p)) + Sent(rest) == Sent(events);
        assert Waiting(None) + Sent(events) == Sent(events);
    } else {
      assert Waiting(mailbox) + [] == Waiting(mailbox);
    }
  }

  lemma SamePrefix<T>(p: seq<T>, a: seq<T>, b: seq<T>)
    ensures p + a == p + b <==> a == b
  {
    assert (p + a)[|p|..] == a && (p + b)[|p|..] == b;
  }

  lemma DrainedTail(events: seq<Event>)
    requires events != []
    ensures DrainedBetween(events) <==>
            DrainedBetween(events[1..]) && (events[0].Block? ==> |events| >= 2 && events[1].Drain?)
  {
    var rest := events[1..];
    if DrainedBetween(events) {
      assert forall i | 0 <= i < |rest| :: rest[i] == events[i + 1];
    }
    if DrainedBetween(rest) {
      assert forall i | 1 <= i < |events| :: events[i] == rest[i - 1];
    }
  }

  lemma {:induction false} FlatLength(blocks: seq<seq<byte>>)
    requires forall b | b in blocks :: |b| == BLOCK
    ensures |Flat(blocks)| == |blocks| * BLOCK
  {
    if blocks != [] {
      FlatLength(blocks[..|blocks| - 1]);
    }
  }

  /** Whole blocks can be told apart again. */
  lemma {:induction false} FlatInjective(a: seq<seq<byte>>, b: seq<seq<byte>>)
    requires (forall x | x in a :: |x| == BLOCK) && (forall x | x in b :: |x| == BLOCK) && Flat(a) == Flat(b)
    ensures a == b
  {
    FlatLength(a);
    FlatLength(b);
    if a != [] {
      var n := |a| - 1;
      assert Flat(a)[n * BLOCK..] == a[n] && Flat(b)[n * BLOCK..] == b[n] by {
        FlatLength(a[..n]);
        FlatLength(b[..n]);
      }
      assert Flat(a)[..n * BLOCK] == Flat(a[..n]) && Flat(b)[..n * BLOCK] == Flat(b[..n]) by {
        FlatLength(a[..n]);
        FlatLength(b[..n]);
      }
      FlatInjective(a[..n], b[..n]);
    }
  }

  lemma {:induction false} StoredBlocks(events: seq<Event>, mailbox: Option<seq<byte>>)
    requires (forall p | p in Sent(events) :: |p| == BLOCK) && (mailbox.Some? ==> |mailbox.value| == BLOCK)
    ensures forall p | p in Stored(events, mailbox) :: |p| == BLOCK
  {
    if events != [] {
      match events[0]
      case Block(_, p) => StoredBlocks(events[1..], Some(p));
      case Noise(_) => StoredBlocks(events[1..], mailbox);
      case Drain => StoredBlocks(events[1..], None);
    }
  }

  lemma {:induction false} NoNoise(events: seq<Event>, taken: nat)
    ensures forall e | e in Kept(events, taken) :: !e.Noise?
  {
    if events != [] {
      NoNoise(events[1..], taken + 1);
      NoNoise(events[1..], taken);
    }
  }

  /** The assumption behind the transfer, exactly: of the blocks taken all are stored just when the main loop comes
      between any two of them and after the last. Otherwise some are missing, and the sender is not told. */
  lemma StoredIfDrained(events: seq<Event>, taken: nat)
    requires forall e | e in events :: Possible(e)
    ensures
      var kept := Kept(events, taken);
      && (Flat(Stored(kept, None)) == Flat(Sent(kept)) <==> DrainedBetween(kept))
      && |Stored(kept, None)| <= |Sent(kept)|
  {
    var kept := Kept(events, taken);
    KeptAreTaken(events, taken);
    NoNoise(events, taken);
    StoredFrom(kept, None);
    assert Waiting(None) + Sent(kept) == Sent(kept);
    StoredBlocks(kept, None);
    if Flat(Stored(kept, None)) == Flat(Sent(kept)) {
      FlatInjective(Stored(kept, None), Sent(kept));
    }
  }

  /** A transfer is under way, and the link is free. */
  ghost predicate Receiving(boot: Bootloader)
    reads boot.Parts()
    ensures Receiving(boot) && boot.dataReceived ==> |boot.dataReceivedBuffer| == 1 + BLOCK + 1
  {
    && boot.Valid() && boot.slave.message == [] && boot.slave.mem.Length == 256
    && boot.slave.mem[ERASE_FIRMWARE] != ERASE
    && !boot.endOfTransmission && !boot.writer.finished
  }

  ghost function Mailbox(boot: Bootloader): (m: Option<seq<byte>>)
    requires boot.dataReceived ==> |boot.dataReceivedBuffer| == 1 + BLOCK + 1
    reads boot
    ensures m.Some? ==> |m.value| == BLOCK
  {
    if boot.dataReceived then Some(boot.dataReceivedBuffer[1..1 + BLOCK]) else None
  }

  /** The boot loader through any such events: it takes the blocks whose numbers are next, and stores those that the
      main loop finds in the mailbox. */
  method RunEvents(boot: Bootloader, events: seq<Event>)
    requires Receiving(boot) && forall e | e in events :: Possible(e)
    requires |boot.writer.received| + (|events| + 1) * BLOCK <= boot.flash.count * PAGE
    modifies boot.Parts()
    ensures Receiving(boot)
    ensures boot.accepted == old(boot.accepted) + |Taken(Positions(events), old(boot.accepted))|
    ensures boot.currentBlock == BlockNumber(boot.accepted)
    ensures boot.writer.received ==
            old(boot.writer.received) + Flat(Stored(Kept(events, old(boot.accepted)), old(Mailbox(boot))))
    ensures old(Mailbox(boot)) == None ==>
              (boot.writer.received == old(boot.writer.received) + Flat(Sent(Kept(events, old(boot.accepted))))
               <==> DrainedBetween(Kept(events, old(boot.accepted))))
    decreases |events|
  {
    hide Bootloader.Valid, StreamWriter.Valid, Flash.Valid, I2cSlave.Valid, Kept, Stored, Sent, Flat, Taken, Positions,
         DrainedBetween, BlockNumber;
    ghost var taken, mailbox := boot.accepted, Mailbox(boot);
    RunNothing(taken, mailbox);
    if events != [] {
      HandleEvent(boot, events[0]);
      RunNext(events, taken, mailbox);
      RunEvents(boot, events[1..]);
    }
    if mailbox == None {
      StoredIfDrained(events, taken);
      SamePrefix(old(boot.writer.received), Flat(Stored(Kept(events, taken), None)), Flat(Sent(Kept(events, taken))));
    }
    NumbersOf(boot);
  }

  method HandleEvent(boot: Bootloader, e: Event)
    requires Receiving(boot) && Possible(e) && |boot.writer.received| + BLOCK <= boot.flash.count * PAGE
    modifies boot.Parts()
    ensures Receiving(boot)
    ensures boot.accepted == TakenAfter(e, old(boot.accepted))
    ensures Mailbox(boot) == MailboxAfter(e, old(boot.accepted), old(Mailbox(boot)))
    ensures boot.writer.received ==
            old(boot.writer.received) + if e.Drain? then Flat(Waiting(old(Mailbox(boot)))) else []
    ensures |boot.writer.received| <= |old(boot.writer.received)| + BLOCK
  {
    hide Checksum, StreamWriter.Valid, Flash.Valid, I2cSlave.Valid, Bootloader.Valid, BlockPart, BlockNumber, Flat;
    NumbersOf(boot);
    FlatWaiting(Mailbox(boot));
    match e {
      case Block(position, payload) =>
        var checksum := ComputeChecksum(payload);
        var message := [DATA_BLOCK_WRITE, position % 256] + payload + [checksum];
        assert message == [DATA_BLOCK_WRITE] + Framed(position % 256, payload);
        FrameIsBlock(position % 256, payload);
        boot.Transaction(message);
      case Noise(data) =>
        boot.Transaction([DATA_BLOCK_WRITE] + data);
      case Drain =>
        boot.MainLoop();
    }
  }

  lemma FlatWaiting(mailbox: Option<seq<byte>>)
    ensures Flat(Waiting(mailbox)) == if mailbox.Some? then mailbox.value else []
  {
    if mailbox.Some? {
      FlatNext([], mailbox.value);
      assert [] + [mailbox.value] == [mailbox.value];
    }
  }

  function TakenAfter(e: Event, taken: nat): nat {
    if e.Block? && e.position % 256 == BlockNumber(taken) then taken + 1 else taken
  }

  function MailboxAfter(e: Event, taken: nat, mailbox: Option<seq<byte>>): Option<seq<byte>> {
    match e
    case Block(position, payload) => if position % 256 == BlockNumber(taken) then Some(payload) else mailbox
    case Noise(_) => mailbox
    case Drain => None
  }

  lemma RunNothing(taken: nat, mailbox: Option<seq<byte>>)
    ensures Taken(Positions([]), taken) == [] && Flat(Stored(Kept([], taken), mailbox)) == []
  {
  }

  /** Both sides after one event. */
  lemma RunNext(events: seq<Event>, taken: nat, mailbox: Option<seq<byte>>)
    requires events != []
    ensures
      var e := events[0];
      var t, m := TakenAfter(e, taken), MailboxAfter(e, taken, mailbox);
      && taken + |Taken(Positions(events), taken)| == t + |Taken(Positions(events[1..]), t)|
      && Flat(Stored(Kept(events, taken), mailbox)) ==
         (if e.Drain? then Flat(Waiting(mailbox)) else []) + Flat(Stored(Kept(events[1..], t), m))
  {
    hide BlockNumber;
    var e, rest := events[0], events[1..];
    var t, m := TakenAfter(e, taken), MailboxAfter(e, taken, mailbox);
    if e.Block? {
      assert Positions(events)[0] == e.position && Positions(events)[1..] == Positions(rest);
    } else {
      assert Positions(events) == Positions(rest);
    }
    var kept := Kept(events, taken);
    if t == taken + 1 || e.Drain? {
      assert kept[0] == e && kept[1..] == Kept(rest, t);
    }
    if e.Drain? {
      FlatAppend(Waiting(mailbox), Stored(Kept(rest, t), m));
    }
  }

  /** For instance, a second block before the main loop has seen the first. */
  lemma BlockLost(p: seq<byte>, q: seq<byte>)
    ensures
      var events := [Block(1, p), Block(2, q), Drain];
      Kept(events, 0) == events && Sent(events) == [p, q] && Stored(events, None) == [q]
  {
    var events := [Block(1, p), Block(2, q), Drain];
    assert events[1..] == [Block(2, q), Drain] && events[1..][1..] == [Drain] && [Drain][1..] == [];
    assert BlockNumber(1) == 2;
    assert Kept([Drain], 2) == [Drain] && Kept(events[1..], 1) == [Block(2, q), Drain];
    assert Sent([Drain]) == [] && Sent(events[1..]) == [q];
    assert Stored([Drain], Some(q)) == [q];
  }
}
