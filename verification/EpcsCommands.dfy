/**
 The flash chip's commands, each one or more SPI transactions.

 Every operation finds the chip ready (deselected, not busy, 3-byte addresses) and leaves it so.
 */
module EpcsCommands {
  import opened Arithmetic
  import opened SerialFlash
  import opened AvalonSpi

  /** The state in which every operation finds and leaves the chip. */
  ghost predicate Ready(c: Chip) {
    Resting(c) && c.busy == 0
  }

  /** No command is under way, but an erase or a program may still be. */
  ghost predicate Resting(c: Chip) {
    WellFormed(c) && !c.selected && c.frame == [] && !c.fourByte
  }

  /** The address length in use reaches all of the device. */
  ghost predicate Addressable(c: Chip, fourBytes: bool) {
    |c.mem| <= Reach(fourBytes)
  }

  /** c' is c with the given memory after n erases and programs; only the latch may differ too. */
  ghost predicate Operated(c: Chip, c': Chip, mem: seq<byte>, n: nat) {
    c' == c.(mem := mem, wel := c'.wel, ops := c.ops + n)
  }

  // ---------------------------------------------------------------- frames

  /** A whole transaction that carries no status command has the effect of its frame. */
  lemma FrameEffect(c: Chip, frame: seq<byte>)
    requires !c.selected && frame != [] && frame[0] != RDSR
    ensures Transaction(c, frame + Zeros(0), false).0
         == Execute(c.(selected := true, frame := frame), frame).(selected := false, frame := [])
  {
    assert frame + Zeros(0) == frame && [] + frame == frame;
    ExchangeFillsFrame(Select(c), frame);
  }

  /** Two transactions, the first merged with the second, have the effect of one frame. */
  lemma MergedEffect(c: Chip, a: seq<byte>, b: seq<byte>)
    requires !c.selected && a != [] && a[0] != RDSR
    ensures Transaction(Transaction(c, a + Zeros(0), true).0, b + Zeros(0), false).0
         == Transaction(c, (a + b) + Zeros(0), false).0
  {
    assert a + Zeros(0) == a && b + Zeros(0) == b && (a + b) + Zeros(0) == a + b && [] + a == a;
    ExchangeFillsFrame(Select(c), a);
    ExchangeSplit(Select(c), a, b);
  }

  /** An address that goes round a memory of the given size. */
  function Wrapped(size: nat, address: nat): (cell: nat)
    requires size > 0
    ensures cell < size
    decreases address
  {
    if address < size then address else Wrapped(size, address - size)
  }

  lemma {:induction false} WrappedIsRemainder(size: nat, address: nat)
    requires size > 0
    ensures Wrapped(size, address) == address % size
    decreases address
  {
    DivMod(address, size);
    if address < size {
      SmallRemainder(address, size);
    } else {
      WrappedIsRemainder(size, address - size);
      DivMod(address - size, size);
      assert ((address - size) / size + 1) * size == (address - size) / size * size + size;
      Quotient(address, size, (address - size) / size + 1, (address - size) % size);
    }
  }

  /** The cell that an offset reaches: address bits that the mode or the device does not have are lost. */
  function CellAt(size: nat, fourBytes: bool, offset: nat): (cell: nat)
    requires size > 0
    ensures cell < size
  {
    Wrapped(size, offset % Reach(fourBytes))
  }

  /** Every offset in the device reaches its own cell. */
  lemma OwnCell(size: nat, fourBytes: bool, offset: nat)
    requires offset < size <= Reach(fourBytes)
    ensures CellAt(size, fourBytes, offset) == offset
  {
    SmallRemainder(offset, Reach(fourBytes));
  }

  /** The address in a command frame is the cell of the offset it was made from. */
  lemma CommandAddress(c: Chip, opcode: byte, offset: nat, fourBytes: bool, rest: seq<byte>)
    requires c.fourByte == fourBytes && c.mem != []
    ensures FrameAddress(c, [opcode] + AddressBytes(offset, fourBytes) + rest) == CellAt(|c.mem|, fourBytes, offset)
    ensures Addressable(c, fourBytes) && offset < |c.mem| ==> CellAt(|c.mem|, fourBytes, offset) == offset
  {
    var frame := [opcode] + AddressBytes(offset, fourBytes) + rest;
    assert frame[1..HeaderLength(c)] == AddressBytes(offset, fourBytes);
    AddressRoundTrip(offset, fourBytes);
    WrappedIsRemainder(|c.mem|, offset % Reach(fourBytes));
    if Addressable(c, fourBytes) && offset < |c.mem| {
      OwnCell(|c.mem|, fourBytes, offset);
    }
  }

  // ---------------------------------------------------------------- commands

  method NoRead() returns (dest: array<byte>)
    ensures fresh(dest) && dest.Length == 0
  {
    dest := new byte[0];
  }

  /** Sends a frame that brings no answer back. */
  method Send(port: SpiPort, frame: seq<byte>)
    requires port.Idle() && !port.chip.selected && frame != [] && frame[0] != RDSR
    modifies port
    ensures port.Idle()
    ensures var c := old(port.chip);
            port.chip == Execute(c.(selected := true, frame := frame), frame).(selected := false, frame := [])
  {
    FrameEffect(port.chip, frame);
    var none := NoRead();
    var rc := port.Command(frame, 0, none, false);
  }

  method ReadStatusRegister(port: SpiPort) returns (status: byte)
    requires port.Idle() && !port.chip.selected && port.chip.frame == []
    modifies port
    ensures port.Idle() && status == Status(old(port.chip))
    ensures var c := old(port.chip);
            port.chip == c.(busy := if c.busy > 0 then c.busy - 1 else 0)
  {
    assert [RDSR] + Zeros(1) == [RDSR, 0];
    StatusAnswers(Select(port.chip));
    var answer := new byte[1];
    var rc := port.Command([RDSR], 1, answer, false);
    status := answer[0];
  }

  /** Polls the status until no erase or program is in progress. */
  method AwaitWipReleased(port: SpiPort)
    requires port.Idle() && !port.chip.selected && port.chip.frame == []
    modifies port
    ensures port.Idle() && port.chip == old(port.chip).(busy := 0)
  {
    while true
      invariant port.Idle() && port.chip == old(port.chip).(busy := port.chip.busy)
      decreases port.chip.busy
    {
      var status := ReadStatusRegister(port);
      if status % 2 == 0 {
        break;
      }
    }
  }

  /** Sets the write enable latch. */
  method WriteEnable(port: SpiPort)
    requires port.Idle() && !port.chip.selected && port.chip.frame == []
    requires port.chip.busy == 0 && port.chip.mem != []
    modifies port
    ensures port.Idle() && port.chip == old(port.chip).(wel := true)
  {
    Send(port, [WREN]);
  }

  method Enter4BytesMode(port: SpiPort)
    requires port.Idle() && !port.chip.selected && port.chip.frame == []
    requires port.chip.busy == 0 && port.chip.mem != []
    modifies port
    ensures port.Idle() && port.chip == old(port.chip).(fourByte := true, wel := false)
  {
    WriteEnable(port);
    Send(port, [EN4B]);
  }

  method Exit4BytesMode(port: SpiPort)
    requires port.Idle() && !port.chip.selected && port.chip.frame == []
    requires port.chip.busy == 0 && port.chip.mem != []
    modifies port
    ensures port.Idle() && port.chip == old(port.chip).(fourByte := false, wel := false)
  {
    WriteEnable(port);
    Send(port, [DIS4B]);
  }

  /** Sets the sector that holds the offset to 0xFF. */
  method SectorErase(port: SpiPort, offset: nat, fourBytes: bool)
    requires port.Idle() && Ready(port.chip) && Addressable(port.chip, fourBytes)
    requires offset < |port.chip.mem|
    modifies port
    ensures port.Idle() && Ready(port.chip)
    ensures Operated(old(port.chip), port.chip, Erase(old(port.chip), offset), 1)
  {
    var se := [SE] + AddressBytes(offset, fourBytes);
    if fourBytes {
      Enter4BytesMode(port);
    }
    WriteEnable(port);
    CommandAddress(port.chip, SE, offset, fourBytes, []);
    assert se + [] == se;
    Send(port, se);
    AwaitWipReleased(port);
    if fourBytes {
      Exit4BytesMode(port);
    }
  }

  /** Programs the data into the page that holds the cell of the offset. */
  method WriteBuffer(port: SpiPort, offset: nat, data: seq<byte>, fourBytes: bool) returns (rc: int)
    requires port.Idle() && Ready(port.chip) && data != []
    modifies port
    ensures port.Idle() && Ready(port.chip) && rc == |data|
    ensures var mem := old(port.chip.mem);
            Operated(old(port.chip), port.chip, Program(mem, CellAt(|mem|, fourBytes, offset), data), 1)
  {
    var pp := [PP] + AddressBytes(offset, fourBytes);
    if fourBytes {
      Enter4BytesMode(port);
    }
    WriteEnable(port);
    ghost var before := port.chip;
    MergedEffect(before, pp, data);
    FrameEffect(before, pp + data);
    CommandAddress(before, PP, offset, fourBytes, data);
    assert (pp + data)[|pp|..] == data;
    var none := NoRead();
    var sent := port.Command(pp, 0, none, true);
    sent := port.Command(data, 0, none, false);
    AwaitWipReleased(port);
    if fourBytes {
      Exit4BytesMode(port);
    }
    rc := |data|;
  }

  /**
   Reads from the offset on, wrapping at the end of the device.  A chip that is still busy is waited for, but
   not before the switch to 4-byte addresses, which such a chip would ignore.
   */
  method ReadBuffer(port: SpiPort, offset: nat, dest: array<byte>, length: nat, fourBytes: bool)
    returns (rc: int)
    requires port.Idle() && Resting(port.chip) && Addressable(port.chip, fourBytes)
    requires fourBytes ==> port.chip.busy == 0
    requires offset < |port.chip.mem| && length <= dest.Length
    modifies port, dest
    ensures port.Idle() && Ready(port.chip) && rc == length
    ensures Operated(old(port.chip).(busy := 0), port.chip, old(port.chip.mem), 0)
    ensures dest[..length] == MemoryFrom(old(port.chip.mem), offset, length)
    ensures dest[length..] == old(dest[length..])
  {
    if fourBytes {
      Enter4BytesMode(port);
    }
    AwaitWipReleased(port);
    ReadCommand(port, offset, dest, length, fourBytes);
    if fourBytes {
      Exit4BytesMode(port);
    }
    rc := length;
  }

  /** A frame that only asks changes nothing. */
  lemma QueryFrameDoesNothing(c: Chip, frame: seq<byte>)
    requires frame != [] && frame[0] in [RES, RDID, READ]
    ensures Execute(c, frame) == c
  {
  }

  /** Sends a command that only asks, and stores the answers. */
  method Ask(port: SpiPort, command: seq<byte>, n: nat, dest: array<byte>)
    requires port.Idle() && !port.chip.selected && port.chip.frame == [] && n <= dest.Length
    requires command != [] && command[0] in [RES, RDID, READ]
    modifies port, dest
    ensures port.Idle() && port.chip == old(port.chip)
    ensures dest[..n] == Exchange(Select(port.chip), command + Zeros(n)).1[|command|..]
    ensures dest[n..] == old(dest[n..])
  {
    ghost var c, out := Select(port.chip), command + Zeros(n);
    assert [] + out == out;
    ExchangeFillsFrame(c, out);
    QueryFrameDoesNothing(c.(frame := out), out);
    var rc := port.Command(command, n, dest, false);
  }

  /** The read command itself, in the mode that the chip is in. */
  method ReadCommand(port: SpiPort, offset: nat, dest: array<byte>, length: nat, fourBytes: bool)
    requires port.Idle() && WellFormed(port.chip) && !port.chip.selected && port.chip.frame == [] && port.chip.busy == 0
    requires port.chip.fourByte == fourBytes && Addressable(port.chip, fourBytes)
    requires offset < |port.chip.mem| && length <= dest.Length
    modifies port, dest
    ensures port.Idle() && port.chip == old(port.chip)
    ensures dest[..length] == MemoryFrom(port.chip.mem, offset, length)
    ensures dest[length..] == old(dest[length..])
  {
    var read := [READ] + AddressBytes(offset, fourBytes);
    CommandAddress(port.chip, READ, offset, fourBytes, []);
    assert read + [] == read;
    ReadAnswers(Select(port.chip), read, Zeros(length));
    Ask(port, read, length, dest);
  }

  method ReadElectronicSignature(port: SpiPort) returns (signature: byte)
    requires port.Idle() && Ready(port.chip)
    modifies port
    ensures port.Idle() && port.chip == old(port.chip) && signature == port.chip.signature
  {
    var answer := new byte[1];
    SignatureAnswers(Select(port.chip));
    Ask(port, [RES, 0, 0, 0], 1, answer);
    signature := answer[..1][0];
  }

  lemma SignatureAnswers(c: Chip)
    requires c.selected && c.frame == [] && c.busy == 0
    ensures Exchange(c, [RES, 0, 0, 0] + Zeros(1)).1[4..] == [c.signature]
  {
    var command: seq<byte> := [RES, 0, 0, 0];
    var out := command + Zeros(1);
    assert out[..4] == command;
    NthAnswer(c, out, 4);
    SignatureAnswer(c.(frame := command));
  }

  lemma SignatureAnswer(c: Chip)
    requires |c.frame| == 4 && c.frame[0] == RES && c.busy == 0
    ensures Answer(c) == c.signature
  {
  }

  /** The three identification bytes as one number. */
  method ReadDeviceId(port: SpiPort) returns (id: nat)
    requires port.Idle() && Ready(port.chip)
    modifies port
    ensures port.Idle() && port.chip == old(port.chip)
    ensures id == Number(port.chip.id)
  {
    var answer := new byte[3];
    IdAnswers(Select(port.chip));
    Ask(port, [RDID], 3, answer);
    assert answer[..] == answer[..3] == port.chip.id;
    var high: int, middle: int, low: int := answer[0], answer[1], answer[2];
    NumberOfThree(high, middle, low);
    assert port.chip.id == [high, middle, low];
    id := high * 0x1_0000 + middle * 0x100 + low;
  }

  lemma IdAnswers(c: Chip)
    requires WellFormed(c) && c.selected && c.frame == [] && c.busy == 0
    ensures Exchange(c, [RDID] + Zeros(3)).1[1..] == c.id
  {
    IdAnswer(c, 1);
    IdAnswer(c, 2);
    IdAnswer(c, 3);
  }

  lemma IdAnswer(c: Chip, n: nat)
    requires WellFormed(c) && c.selected && c.frame == [] && c.busy == 0 && 1 <= n < 4
    ensures Exchange(c, [RDID] + Zeros(3)).1[n] == c.id[n - 1]
  {
    var out := [RDID] + Zeros(3);
    NthAnswer(c, out, n);
    IdInFrame(c.(frame := out[..n]));
  }

  /** The answer to a byte depends on what has been shifted in before it. */
  lemma NthAnswer(c: Chip, out: seq<byte>, n: nat)
    requires c.selected && c.frame == [] && n < |out| && out[0] != RDSR
    ensures Exchange(c, out).1[n] == Answer(c.(frame := out[..n]))
  {
    assert [] + out[..n] == out[..n];
    ExchangeFillsFrame(c, out[..n]);
    ExchangeNext(c, out, n);
  }

  lemma IdInFrame(c: Chip)
    requires c.frame != [] && c.frame[0] == RDID && c.busy == 0 && |c.frame| <= |c.id|
    ensures Answer(c) == c.id[|c.frame| - 1]
  {
  }
}
