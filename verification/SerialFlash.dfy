/**
 A serial configuration flash chip (EPCS/EPCQ), seen from its SPI pins.

 While the chip is selected it shifts bytes in and out, one for one; what it has shifted in since
 it was selected is its current frame.  Most commands take effect when it is deselected.  Erasing
 sets a whole sector to 0xFF, programming can only clear bits and stays inside one page, both
 need the write enable latch, and both leave the chip busy for a time nobody knows.  A busy chip
 answers status reads and ignores everything else.
 */
module SerialFlash {
  import opened Arithmetic

  // The commands the driver uses.
  const READ: byte := 0x03
  const PP: byte := 0x02
  const WREN: byte := 0x06
  const RDSR: byte := 0x05
  const SE: byte := 0xD8
  const RES: byte := 0xAB
  const RDID: byte := 0x9F
  const EN4B: byte := 0xB7
  const DIS4B: byte := 0xE9

  const PAGE := 256

  /** A stretch of memory made of "blocks" equal erase blocks. */
  datatype Region = Region(offset: int, size: int, blocks: int, blockSize: int)

  datatype Chip = Chip(
    mem: seq<byte>,
    regions: seq<Region>,   // where the sectors are
    signature: byte,        // answer to RES
    id: seq<byte>,          // answer to RDID
    latency: nat -> nat,    // how many status reads the n-th erase or program outlasts
    ops: nat,               // how many of these have been done
    busy: nat,              // how many more status reads will find the chip busy
    wel: bool,              // write enable latch
    fourByte: bool,         // address mode
    selected: bool,
    frame: seq<byte>)

  // ---------------------------------------------------------------- layout

  /** Regions follow each other without a gap from address 0, and blocks fill each region. */
  ghost predicate Tiled(regions: seq<Region>) {
    && regions != []
    && regions[0].offset == 0
    && (forall i :: 0 <= i < |regions| ==> TiledRegion(regions[i]))
    && (forall i :: 0 < i < |regions| ==> regions[i].offset == End(regions[i - 1]))
  }

  ghost predicate TiledRegion(r: Region) {
    r.blocks > 0 && r.blockSize > 0 && r.size == r.blocks * r.blockSize && r.offset >= 0
  }

  function End(r: Region): int {
    r.offset + r.size
  }

  predicate InRegion(r: Region, a: int) {
    r.offset <= a < End(r)
  }

  /** The first address of the block of region r that holds address a. */
  function BlockStart(r: Region, a: int): int
    requires r.blockSize > 0
  {
    r.offset + (a - r.offset) / r.blockSize * r.blockSize
  }

  ghost predicate WellFormed(c: Chip) {
    && Tiled(c.regions) && |c.mem| == End(c.regions[|c.regions| - 1])
    && |c.id| == 3
  }

  /** Some region holds each address of the device. */
  lemma {:induction false} AddressHasRegion(regions: seq<Region>, a: int) returns (i: nat)
    requires Tiled(regions) && 0 <= a < End(regions[|regions| - 1])
    ensures i < |regions| && InRegion(regions[i], a)
  {
    i := |regions| - 1;
    while a < regions[i].offset
      invariant 0 <= i < |regions| && a < End(regions[i])
    {
      i := i - 1;
    }
  }

  /** Later regions lie above earlier ones. */
  lemma {:induction false} RegionsAscend(regions: seq<Region>, i: nat, j: nat)
    requires Tiled(regions) && i < j < |regions|
    ensures End(regions[i]) <= regions[j].offset
    decreases j - i
  {
    if i + 1 < j {
      RegionsAscend(regions, i, j - 1);
    }
  }

  /** Addresses x and y are erased together. */
  predicate SameBlock(regions: seq<Region>, x: int, y: int) {
    exists i :: 0 <= i < |regions| && InBlockOf(regions[i], x, y)
  }

  predicate InBlockOf(r: Region, x: int, y: int) {
    InRegion(r, x) && InRegion(r, y) && r.blockSize > 0 && BlockStart(r, x) == BlockStart(r, y)
  }

  // ---------------------------------------------------------------- memory operations

  /** Bitwise and, on numbers. */
  function BitAnd(a: nat, b: nat): (r: nat)
    ensures r <= a && r <= b
  {
    if a == 0 || b == 0 then 0 else (a % 2) * (b % 2) + 2 * BitAnd(a / 2, b / 2)
  }

  /** And with all ones changes nothing. */
  lemma {:induction false} BitAndOnes(ones: nat, b: nat)
    requires b <= ones && AllOnes(ones)
    ensures BitAnd(ones, b) == b
    decreases ones
  {
    if b > 0 {
      BitAndOnes(ones / 2, b / 2);
    }
  }

  predicate AllOnes(v: nat) { v == 0 || (v % 2 == 1 && AllOnes(v / 2)) }

  /** Programming an erased byte stores the byte. */
  lemma BitAndErased(b: byte)
    ensures BitAnd(0xFF, b) == b
  {
    assert AllOnes(1) && AllOnes(3) && AllOnes(7) && AllOnes(15) && AllOnes(31) && AllOnes(63) && AllOnes(127);
    BitAndOnes(0xFF, b);
  }

  /** Sets the sector that holds address a to 0xFF. */
  function Erase(c: Chip, a: int): (mem: seq<byte>)
    ensures |mem| == |c.mem|
  {
    seq(|c.mem|, k requires 0 <= k < |c.mem| => if SameBlock(c.regions, a, k) then 0xFF else c.mem[k])
  }

  /**
   Programs data from address a on, wrapping at the end of the page that holds a.  Of more than a
   page only the last page's worth counts.
   */
  function Program(mem: seq<byte>, a: int, data: seq<byte>): (mem': seq<byte>)
    requires 0 <= a
    ensures |mem'| == |mem|
  {
    var skip := if |data| > PAGE then |data| - PAGE else 0;
    var base := a / PAGE * PAGE;
    seq(|mem|, k requires 0 <= k < |mem| =>
      var at := (k - a - skip) % PAGE;  // how far k is from the first byte that counts
      if base <= k < base + PAGE && at < |data| - skip then
        BitAnd(mem[k], data[skip + at])
      else
        mem[k])
  }

  /** The byte at an address, going round at the end. */
  function ByteAt(mem: seq<byte>, a: nat): byte
    requires mem != []
  {
    mem[a % |mem|]
  }

  /** The n bytes from address a on, wrapping at the end of the device. */
  function MemoryFrom(mem: seq<byte>, a: nat, n: nat): (r: seq<byte>)
    requires mem != []
    ensures |r| == n
  {
    seq<byte>(n, i requires 0 <= i < n => ByteAt(mem, a + i))
  }

  // ---------------------------------------------------------------- addresses

  /** The address bytes of a command, most significant first. */
  function AddressBytes(a: nat, fourBytes: bool): (bs: seq<byte>)
    ensures |bs| == AddressLength(fourBytes)
  {
    (if fourBytes then [a / 0x100_0000 % 256] else [])
    + [a / 0x1_0000 % 256, a / 0x100 % 256, a % 256]
  }

  function AddressLength(fourBytes: bool): nat { if fourBytes then 4 else 3 }

  /** The number that bytes stand for, most significant first. */
  function Number(bs: seq<byte>): nat {
    if bs == [] then 0 else Number(bs[..|bs| - 1]) * 256 + bs[|bs| - 1]
  }

  /** How many addresses there are in a mode. */
  function Reach(fourBytes: bool): nat { if fourBytes then 0x1_0000_0000 else 0x100_0000 }

  /** The chip reads back the address that was meant, if the mode has enough bytes for it. */
  lemma AddressRoundTrip(a: nat, fourBytes: bool)
    ensures Number(AddressBytes(a, fourBytes)) == a % Reach(fourBytes)
    ensures Number(AddressBytes(a, fourBytes)) == a <==> a < Reach(fourBytes)
  {
    var bs := AddressBytes(a, fourBytes);
    LowBytes(a);
    NumberOfThree(bs[0], bs[1], bs[2]);
    if fourBytes {
      NumberOfFour(bs[0], bs[1], bs[2], bs[3]);
      assert bs == [bs[0], bs[1], bs[2], bs[3]];
    } else {
      assert bs == [bs[0], bs[1], bs[2]];
    }
  }

  /** A number is its low bytes and a multiple of 2^24, or of 2^32. */
  lemma LowBytes(a: nat)
    ensures a % 0x100_0000 == a / 0x1_0000 % 256 * 0x1_0000 + a / 0x100 % 256 * 0x100 + a % 256
    ensures a % 0x1_0000_0000 == a / 0x100_0000 % 256 * 0x100_0000 + a % 0x100_0000
  {
    SplitByte(a, 0x100);
    SplitByte(a, 0x1_0000);
    SplitByte(a, 0x100_0000);
  }

  lemma SplitByte(a: nat, p: nat)
    requires p > 0
    ensures a % (p * 256) == a / p % 256 * p + a % p
  {
    var q, r := a / p, a % p;
    DivMod(a, p);
    DivMod(q, 256);
    Regroup(q / 256, 256, q % 256, p);
    BelowPower(q % 256, r, 256, p);
    Quotient(a, p * 256, q / 256, q % 256 * p + r);
  }

  lemma NumberOfFour(w: int, x: int, y: int, z: int)
    requires 0 <= w < 256 && 0 <= x < 256 && 0 <= y < 256 && 0 <= z < 256
    ensures Number([w, x, y, z]) == w * 0x100_0000 + x * 0x1_0000 + y * 0x100 + z
  {
    var bs: seq<byte> := [w, x, y, z];
    NumberOfThree(w, x, y);
    assert bs[..3] == [w, x, y];
  }

  lemma NumberOfThree(x: int, y: int, z: int)
    requires 0 <= x < 256 && 0 <= y < 256 && 0 <= z < 256
    ensures Number([x, y, z]) == x * 0x1_0000 + y * 0x100 + z
  {
    var bs: seq<byte> := [x, y, z];
    assert bs[..2] == [x, y] && bs[..2][..1] == [x] && bs[..2][..1][..0] == [];
    assert Number([x]) == x;
    assert Number([x, y]) == x * 256 + y;
  }

  // ---------------------------------------------------------------- pins

  function Select(c: Chip): Chip {
    if c.selected then c else c.(selected := true, frame := [])
  }

  /** Where the address in the frame ends. */
  function HeaderLength(c: Chip): nat { 1 + AddressLength(c.fourByte) }

  /** The address in a frame; address bits the device does not have are ignored. */
  function FrameAddress(c: Chip, frame: seq<byte>): nat
    requires HeaderLength(c) <= |frame| && c.mem != []
  {
    Number(frame[1..HeaderLength(c)]) % |c.mem|
  }

  function Status(c: Chip): byte {
    (if c.busy > 0 then 1 else 0) + (if c.wel then 2 else 0)
  }

  /** What the selected chip shifts out while it shifts the next byte in. */
  function Answer(c: Chip): byte {
    var n := |c.frame|;
    if n == 0 then 0xFF
    else if c.frame[0] == RDSR then Status(c)
    else if c.busy > 0 then 0xFF
    else if c.frame[0] == READ && HeaderLength(c) <= n && c.mem != [] then
      ByteAt(c.mem, FrameAddress(c, c.frame) + (n - HeaderLength(c)))
    else if c.frame[0] == RES && 4 <= n then c.signature
    else if c.frame[0] == RDID && n <= |c.id| then c.id[n - 1]
    else 0xFF
  }

  /** Shifts one byte in and one byte out of a selected chip. */
  function ShiftSelected(c: Chip, b: byte): (Chip, byte) {
    // each look at the status brings the end of an erase or program nearer
    var busy := if c.frame != [] && c.frame[0] == RDSR && c.busy > 0 then c.busy - 1 else c.busy;
    (c.(frame := c.frame + [b], busy := busy), Answer(c))
  }

  /** What a frame does when the chip is deselected after it. */
  function Execute(c: Chip, frame: seq<byte>): Chip {
    var h := HeaderLength(c);
    if frame == [] || c.busy > 0 || c.mem == [] then c
    else if frame == [WREN] then c.(wel := true)
    else if !c.wel then c
    else if frame == [EN4B] then c.(fourByte := true, wel := false)
    else if frame == [DIS4B] then c.(fourByte := false, wel := false)
    else if frame[0] == SE && |frame| == h then
      Operate(c, Erase(c, FrameAddress(c, frame)))
    else if frame[0] == PP && |frame| > h then
      Operate(c, Program(c.mem, FrameAddress(c, frame), frame[h..]))
    else c
  }

  function Operate(c: Chip, mem: seq<byte>): Chip {
    c.(mem := mem, wel := false, busy := c.latency(c.ops), ops := c.ops + 1)
  }

  function Deselect(c: Chip): Chip {
    if c.selected then Execute(c, c.frame).(selected := false, frame := []) else c
  }

  /** Shifts one byte; a chip that is not selected is selected for just this byte. */
  function Shift(c: Chip, b: byte): (Chip, byte) {
    if c.selected then ShiftSelected(c, b)
    else
      var (c', answer) := ShiftSelected(Select(c), b);
      (Deselect(c'), answer)
  }

  // ---------------------------------------------------------------- sequences of bytes

  /** Shifts several bytes. */
  function Exchange(c: Chip, out: seq<byte>): (r: (Chip, seq<byte>))
    ensures |r.1| == |out|
  {
    if out == [] then (c, [])
    else
      var (c1, in1) := Exchange(c, out[..|out| - 1]);
      var (c2, b) := Shift(c1, out[|out| - 1]);
      (c2, in1 + [b])
  }

  /** Exchanging in two goes is exchanging in one. */
  lemma {:induction false} ExchangeSplit(c: Chip, a: seq<byte>, b: seq<byte>)
    ensures Exchange(c, a + b).0 == Exchange(Exchange(c, a).0, b).0
    ensures Exchange(c, a + b).1 == Exchange(c, a).1 + Exchange(Exchange(c, a).0, b).1
    decreases |b|
  {
    if b == [] {
      assert a + b == a;
    } else {
      var b' := b[..|b| - 1];
      ExchangeSplit(c, a, b');
      assert (a + b)[..|a + b| - 1] == a + b';
    }
  }

  /** The first n answers are the answers to the first n bytes. */
  lemma ExchangePrefix(c: Chip, out: seq<byte>, n: nat)
    requires n <= |out|
    ensures Exchange(c, out[..n]).1 == Exchange(c, out).1[..n]
  {
    assert out == out[..n] + out[n..];
    ExchangeSplit(c, out[..n], out[n..]);
  }

  /** The n-th byte meets the chip the first n bytes left behind. */
  lemma ExchangeNext(c: Chip, out: seq<byte>, n: nat)
    requires n < |out|
    ensures Shift(Exchange(c, out[..n]).0, out[n])
         == (Exchange(c, out[..n + 1]).0, Exchange(c, out).1[n])
  {
    assert out[..n + 1][..n] == out[..n];
    ExchangePrefix(c, out, n + 1);
    assert Exchange(c, out[..n + 1]).1[n] == Exchange(c, out).1[n];
  }

  /** Shifting in anything but a status command only fills the frame. */
  lemma {:induction false} ExchangeFillsFrame(c: Chip, out: seq<byte>)
    requires c.selected && (c.frame + out != [] ==> (c.frame + out)[0] != RDSR)
    ensures Exchange(c, out).0 == c.(frame := c.frame + out)
    decreases |out|
  {
    if out == [] {
      assert c.frame + out == c.frame;
    } else {
      var out' := out[..|out| - 1];
      ExchangeFillsFrame(c, out');
      assert c.frame + out == c.frame + out' + [out[|out| - 1]];
    }
  }

  /** A read command answers with the memory from the address on. */
  lemma {:induction false} ReadAnswers(c: Chip, header: seq<byte>, zeros: seq<byte>)
    requires c.selected && c.frame == [] && c.busy == 0 && c.mem != []
    requires |header| == HeaderLength(c) && header[0] == READ
    ensures Exchange(c, header + zeros).1[|header|..]
         == MemoryFrom(c.mem, FrameAddress(c, header), |zeros|)
    decreases |zeros|
  {
    if zeros != [] {
      var zeros' := zeros[..|zeros| - 1];
      ReadAnswers(c, header, zeros');
      assert (header + zeros)[..|header + zeros| - 1] == header + zeros';
      ExchangeFillsFrame(c, header + zeros');
      var c1 := Exchange(c, header + zeros').0;
      AnswerToRead(c1, header, |zeros'|);
    }
  }

  lemma AnswerToRead(c: Chip, header: seq<byte>, n: nat)
    requires c.busy == 0 && c.mem != [] && |c.frame| == |header| + n && header <= c.frame
    requires |header| == HeaderLength(c) && header[0] == READ
    ensures Answer(c) == ByteAt(c.mem, FrameAddress(c, header) + n)
  {
    assert c.frame[1..|header|] == header[1..|header|];
  }

  lemma ExchangeOne(c: Chip, b: byte)
    ensures Exchange(c, [b]) == (Shift(c, b).0, [Shift(c, b).1])
  {
    assert [b][..|[b]| - 1] == [];
    assert Exchange(c, []) == (c, []);
    assert Exchange(c, [b]).0 == Shift(c, b).0;
    assert Exchange(c, [b]).1 == [] + [Shift(c, b).1];
    assert Exchange(c, [b]).1 == [Shift(c, b).1];
  }

  /** A status command answers with the status and brings the chip nearer to being ready. */
  lemma StatusAnswers(c: Chip)
    requires c.selected && c.frame == []
    ensures var (c', r) := Exchange(c, [RDSR, 0]);
            && r[1] == Status(c)
            && c' == c.(frame := [RDSR, 0], busy := if c.busy > 0 then c.busy - 1 else 0)
  {
    ExchangeOne(c, RDSR);
    assert c.frame + [RDSR] == [RDSR] && [RDSR] + [0] == [RDSR, 0];
    assert [RDSR, 0][..1] == [RDSR];
  }
}
