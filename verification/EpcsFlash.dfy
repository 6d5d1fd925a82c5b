/**
 The flash device: block erase, page-split block write, compare-before-erase write.
 */
module EpcsFlash {
  import opened Arithmetic
  import opened Errno
  import opened SerialFlash
  import opened AvalonSpi
  import opened EpcsCommands
  import Numerals

  const CHUNK := 32

  // ---------------------------------------------------------------- addresses

  /** The address check: the comparison is one of unsigned numbers. */
  function TestAddress(regions: seq<Region>, offset: int): int
    requires regions != []
  {
    var last := regions[|regions| - 1];
    if Unsigned32(offset) > Unsigned32(-1 + last.offset + last.size) then -EIO else 0
  }

  /** The check passes exactly the addresses of the device, so negative offsets fail. */
  lemma TestAddressMeans(regions: seq<Region>, offset: int)
    requires regions != [] && 0 < End(regions[|regions| - 1]) <= 0x8000_0000
    requires -0x8000_0000 <= offset < 0x8000_0000
    ensures TestAddress(regions, offset) == 0 <==> 0 <= offset < End(regions[|regions| - 1])
    ensures TestAddress(regions, offset) in {0, -EIO}
  {
  }

  // ---------------------------------------------------------------- geometry

  /** What is known of a recognised device: its one region, and whether addresses take 4 bytes. */
  datatype Geometry = Unknown | Known(region: Region, fourBytes: bool)

  function Uniform(megabits: nat, blocks: nat, blockSize: nat): Region {
    Region(0, megabits * 1024 * 1024 / 8, blocks, blockSize)
  }

  /** The device behind an electronic signature or, if that is not known, behind a device id. */
  function Identify(signature: byte, id: nat): Geometry {
    if signature == 0x16 then Known(Uniform(64, 128, 65536), false)        // EPCS64
    else if signature == 0x14 then Known(Uniform(16, 32, 65536), false)    // EPCS16
    else if signature == 0x13 then Known(Uniform(8, 16, 65536), false)     // EPCS8
    else if signature == 0x12 then Known(Uniform(4, 8, 65536), false)      // EPCS4
    else if signature == 0x10 then Known(Uniform(1, 4, 32768), false)      // EPCS1
    else if id % 0x100_0000 == 0x20BA15 then Known(Uniform(16, 32, 65536), false)    // EPCQ16
    else if id % 0x100_0000 == 0x20BA16 then Known(Uniform(32, 64, 65536), false)    // EPCQ32
    else if id % 0x100_0000 == 0x20BA17 then Known(Uniform(64, 128, 65536), false)   // EPCQ64
    else if id % 0x100_0000 == 0x20BA18 then Known(Uniform(128, 256, 65536), false)  // EPCQ128
    else if id % 0x100 == 0x18 then Known(Uniform(128, 64, 262144), false)   // EPCS128
    else if id % 0x100 == 0x19 then Known(Uniform(256, 512, 65536), true)    // EPCQ256
    else if id % 0x100 == 0x20 then Known(Uniform(512, 1024, 65536), true)   // EPCQ512
    else if id % 0x100 == 0x21 then Known(Uniform(1024, 2048, 65536), true)  // EPCQ1024
    else Unknown
  }

  const SIGNATURES: set<int> := {0x10, 0x12, 0x13, 0x14, 0x16}

  /** The power of two that is the size of a recognised device, as its signature or its density id says. */
  function SizeExponent(signature: byte, id: nat): int {
    if signature in SIGNATURES then signature + 1
    else if id % 0x100 < 0x20 then id % 0x100
    else id % 0x100 - 6
  }

  /** Which devices are recognised, and how large they and their sectors are. */
  lemma IdentifyMeans(signature: byte, id: nat)
    ensures var g := Identify(signature, id);
            g.Known? <==> signature in SIGNATURES || id % 0x100_0000 in {0x20BA15, 0x20BA16, 0x20BA17, 0x20BA18}
                          || id % 0x100 in {0x18, 0x19, 0x20, 0x21}
    ensures var g, n := Identify(signature, id), SizeExponent(signature, id);
            g.Known? ==>
              && 17 <= n && g.region.offset == 0 && g.region.size == Numerals.Power(2, n)
              && (g.fourBytes <==> n > 24)
              && g.region.blocks * g.region.blockSize == g.region.size
              && g.region.blockSize == if n == 17 then 32768
                                       else if n == 24 && id % 0x100_0000 != 0x20BA18 then 262144
                                       else 65536
  {
    var g, n := Identify(signature, id), SizeExponent(signature, id);
    if g.Known? {
      RemainderTwice(id, 0x100_0000, 0x100);
      assert n in {17, 19, 20, 21, 22, 23, 24, 25, 26, 27};
      PowersOfTwo();
    }
  }

  lemma Sixteenfold(k: nat)
    ensures Numerals.Power(2, k + 4) == 16 * Numerals.Power(2, k)
  {
    assert Numerals.Power(2, k + 2) == 4 * Numerals.Power(2, k);
  }

  lemma PowersOfTwo()
    ensures Numerals.Power(2, 17) == 0x2_0000 && Numerals.Power(2, 19) == 0x8_0000
    ensures Numerals.Power(2, 20) == 0x10_0000 && Numerals.Power(2, 21) == 0x20_0000
    ensures Numerals.Power(2, 22) == 0x40_0000 && Numerals.Power(2, 23) == 0x80_0000
    ensures Numerals.Power(2, 24) == 0x100_0000 && Numerals.Power(2, 25) == 0x200_0000
    ensures Numerals.Power(2, 26) == 0x400_0000 && Numerals.Power(2, 27) == 0x800_0000
  {
    Sixteenfold(0);
    Sixteenfold(4);
    Sixteenfold(8);
    Sixteenfold(12);
    Sixteenfold(16);
    Sixteenfold(20);
    Sixteenfold(13);
    Sixteenfold(15);
    Sixteenfold(17);
    Sixteenfold(18);
    Sixteenfold(19);
    Sixteenfold(21);
    Sixteenfold(22);
    Sixteenfold(23);
  }

  /**
   Every recognised device is tiled by its blocks, blocks consist of whole pages, and the address
   bytes sent for any of its offsets read back as that offset.
   */
  lemma GeometrySound(signature: byte, id: nat, offset: nat)
    requires var g := Identify(signature, id); g.Known? && offset < g.region.size
    ensures var g := Identify(signature, id);
            && Tiled([g.region]) && g.region.blockSize % PAGE == 0
            && End(g.region) <= 0x8000_0000
            && Number(AddressBytes(offset, g.fourBytes)) == offset
  {
    AddressRoundTrip(offset, Identify(signature, id).fourBytes);
  }

  /** Every recognised device has whole pages, and its mode addresses it a whole number of times. */
  lemma GeometryWraps(signature: byte, id: nat)
    requires Identify(signature, id).Known?
    ensures var g := Identify(signature, id); g.region.size % PAGE == 0 && Reach(g.fourBytes) % g.region.size == 0
  {
    var g := Identify(signature, id);
    if g.fourBytes {
      assert g.region.size in {0x200_0000, 0x400_0000, 0x800_0000};
    } else {
      assert g.region.size in {0x2_0000, 0x8_0000, 0x10_0000, 0x20_0000, 0x40_0000, 0x80_0000, 0x100_0000};
    }
  }

  // ---------------------------------------------------------------- page pieces

  /** Where the page after the one that holds the offset starts. */
  function NextPage(offset: nat): (next: nat)
    ensures offset < next <= offset + PAGE && next % PAGE == 0
  {
    (offset + PAGE) / PAGE * PAGE
  }

  datatype Piece = Piece(offset: nat, data: seq<byte>)

  /** How data from an offset on is cut up for page programming. */
  function Pieces(offset: nat, data: seq<byte>): seq<Piece>
    decreases |data|
  {
    if data == [] then []
    else
      var n := Min(|data|, NextPage(offset) - offset);
      [Piece(offset, data[..n])] + Pieces(NextPage(offset), data[n..])
  }

  /** The memory after programming the pieces in order. */
  function ProgramPieces(mem: seq<byte>, fourBytes: bool, pieces: seq<Piece>): (mem': seq<byte>)
    requires mem != []
    ensures |mem'| == |mem|
    decreases |pieces|
  {
    if pieces == [] then mem
    else
      var cell := CellAt(|mem|, fourBytes, pieces[0].offset);
      ProgramPieces(Program(mem, cell, pieces[0].data), fourBytes, pieces[1..])
  }

  lemma ProgramFirstPiece(mem: seq<byte>, fourBytes: bool, offset: nat, data: seq<byte>, n: nat)
    requires mem != [] && data != [] && n == Min(|data|, NextPage(offset) - offset)
    ensures |Pieces(offset, data)| == 1 + |Pieces(NextPage(offset), data[n..])|
    ensures ProgramPieces(mem, fourBytes, Pieces(offset, data))
         == ProgramPieces(Program(mem, CellAt(|mem|, fourBytes, offset), data[..n]), fourBytes,
                          Pieces(NextPage(offset), data[n..]))
  {
    assert Pieces(offset, data)[1..] == Pieces(NextPage(offset), data[n..]);
  }

  /** The piece does not reach over the end of the page it starts in. */
  ghost predicate InOnePage(p: Piece) {
    p.data != [] && p.offset / PAGE == (p.offset + |p.data| - 1) / PAGE
  }

  function Joined(pieces: seq<Piece>): seq<byte>
    decreases |pieces|
  {
    if pieces == [] then [] else pieces[0].data + Joined(pieces[1..])
  }

  /** The pieces are the data, in order and without gaps, and none crosses a page boundary. */
  lemma {:induction false} PiecesPartition(offset: nat, data: seq<byte>)
    ensures var ps := Pieces(offset, data);
            && Joined(ps) == data
            && (forall i :: 0 <= i < |ps| ==> InOnePage(ps[i]))
            && (ps != [] ==> ps[0].offset == offset)
            && (forall i :: 0 < i < |ps| ==> ps[i].offset == ps[i - 1].offset + |ps[i - 1].data|)
    decreases |data|
  {
    if data != [] {
      var n := Min(|data|, NextPage(offset) - offset);
      PiecesPartition(NextPage(offset), data[n..]);
      assert data == data[..n] + data[n..];
      InPageUpTo(offset, n);
      var ps := Pieces(offset, data);
      assert ps[1..] == Pieces(NextPage(offset), data[n..]);
    }
  }

  lemma InPageUpTo(offset: nat, n: nat)
    requires 0 < n <= NextPage(offset) - offset
    ensures offset / PAGE == (offset + n - 1) / PAGE
  {
  }

  /** Inside one page, programming is a bitwise and over exactly the bytes of the piece. */
  lemma ProgramInPage(mem: seq<byte>, p: Piece, k: nat)
    requires InOnePage(p) && k < |mem|
    ensures Program(mem, p.offset, p.data)[k]
         == if p.offset <= k < p.offset + |p.data| then BitAnd(mem[k], p.data[k - p.offset]) else mem[k]
  {
    var base := p.offset / PAGE * PAGE;
    if base <= k < base + PAGE {
      if k < p.offset {
        assert (k - p.offset) % PAGE == k - p.offset + PAGE;
      } else {
        assert (k - p.offset) % PAGE == k - p.offset;
      }
    }
  }

  /** A byte of memory after the data has passed over it, d cells on from where the data starts. */
  function Met(x: byte, data: seq<byte>, d: int): byte {
    if 0 <= d < |data| then BitAnd(x, data[d]) else x
  }

  lemma MetInTwo(x: byte, data: seq<byte>, n: nat, d: int, d': int)
    requires n < |data| && d' == d - n
    ensures Met(Met(x, data[..n], d), data[n..], d') == Met(x, data, d)
  {
  }

  /** Programming data piece by piece is a bitwise and over exactly its range. */
  lemma ProgramPiecesMeans(mem: seq<byte>, fourBytes: bool, offset: nat, data: seq<byte>, k: nat)
    requires k < |mem| <= Reach(fourBytes) && (data != [] ==> offset + |data| <= |mem|)
    ensures ProgramPieces(mem, fourBytes, Pieces(offset, data))[k]
         == if offset <= k < offset + |data| then BitAnd(mem[k], data[k - offset]) else mem[k]
  {
    ProgramPiecesMet(mem, fourBytes, offset, data, k);
  }

  lemma {:induction false} ProgramPiecesMet(mem: seq<byte>, fourBytes: bool, offset: nat, data: seq<byte>, k: nat)
    requires k < |mem| <= Reach(fourBytes) && (data != [] ==> offset + |data| <= |mem|)
    ensures ProgramPieces(mem, fourBytes, Pieces(offset, data))[k] == Met(mem[k], data, k - offset)
    decreases |data|
  {
    var next := NextPage(offset);
    var n := next - offset;
    if data == [] {
    } else if |data| <= n {
      FirstPieceMeans(mem, fourBytes, offset, data, |data|, k);
      OnePiece(mem, fourBytes, offset, data);
    } else {
      var mem' := Program(mem, CellAt(|mem|, fourBytes, offset), data[..n]);
      FirstPieceMeans(mem, fourBytes, offset, data, n, k);
      ProgramFirstPiece(mem, fourBytes, offset, data, n);
      ProgramPiecesMet(mem', fourBytes, next, data[n..], k);
      MetInTwo(mem[k], data, n, k - offset, k - next);
    }
  }

  lemma FirstPieceMeans(mem: seq<byte>, fourBytes: bool, offset: nat, data: seq<byte>, n: nat, k: nat)
    requires k < |mem| <= Reach(fourBytes) && offset + |data| <= |mem|
    requires 0 < n <= |data| && n <= NextPage(offset) - offset
    ensures Program(mem, CellAt(|mem|, fourBytes, offset), data[..n])[k] == Met(mem[k], data[..n], k - offset)
  {
    InPageUpTo(offset, n);
    OwnCell(|mem|, fourBytes, offset);
    ProgramInPage(mem, Piece(offset, data[..n]), k);
  }

  lemma OnePiece(mem: seq<byte>, fourBytes: bool, offset: nat, data: seq<byte>)
    requires mem != [] && 0 < |data| <= NextPage(offset) - offset
    ensures data[..|data|] == data
    ensures ProgramPieces(mem, fourBytes, Pieces(offset, data)) == Program(mem, CellAt(|mem|, fourBytes, offset), data)
  {
    ProgramFirstPiece(mem, fourBytes, offset, data, |data|);
    assert data[..|data|] == data && data[|data|..] == [];
  }

  /** How far cell k comes after cell a, going round a memory of the given size. */
  function Gap(size: nat, a: nat, k: nat): int {
    if a <= k then k - a else k - a + size
  }

  /** The cell of an offset lies in its page as the offset does, and the next page goes on from there or from 0. */
  predicate Aligned(size: nat, fourBytes: bool, offset: nat)
    requires size > 0
  {
    var a, next := CellAt(size, fourBytes, offset), NextPage(offset);
    && 0 <= a && NextPage(a) - a == next - offset && NextPage(a) <= size
    && CellAt(size, fourBytes, next) == if NextPage(a) == size then 0 else NextPage(a)
  }

  /** So it is in a memory of whole pages that the mode can address a whole number of times. */
  lemma WholePagesAligned(size: nat, fourBytes: bool, offset: nat)
    requires size > 0 && size % PAGE == 0 && Reach(fourBytes) % size == 0
    ensures Aligned(size, fourBytes, offset)
  {
    var q, a, next := offset / size, offset % size, NextPage(offset);
    CellIsRemainder(size, fourBytes, offset);
    CellIsRemainder(size, fourBytes, next);
    DivMod(offset, size);
    PageOfRemainder(offset, size, size / PAGE, q, a);
    NextRemainder(next, size, q, NextPage(a));
  }

  lemma CellIsRemainder(size: nat, fourBytes: bool, offset: nat)
    requires size > 0 && Reach(fourBytes) % size == 0
    ensures CellAt(size, fourBytes, offset) == offset % size
  {
    WrappedIsRemainder(size, offset % Reach(fourBytes));
    RemainderTwice(offset, Reach(fourBytes), size);
  }

  lemma NextRemainder(next: nat, size: nat, q: nat, a: nat)
    requires size > 0 && next == q * size + a && a <= size
    ensures next % size == if a == size then 0 else a
  {
    if a == size {
      Quotient(next, size, q + 1, 0);
    } else {
      Quotient(next, size, q, a);
    }
  }

  lemma PageOfRemainder(offset: nat, size: nat, pages: nat, q: nat, a: nat)
    requires size == pages * PAGE && offset == q * size + a && a < size
    ensures NextPage(a) - a == NextPage(offset) - offset && NextPage(a) <= size
  {
    assert q * size == q * pages * PAGE;
    PageShift(a, q * pages);
    PageEnd(a, pages);
  }

  lemma PageShift(a: nat, pages: nat)
    ensures NextPage(a + pages * PAGE) == NextPage(a) + pages * PAGE
  {
  }

  lemma PageEnd(a: nat, pages: nat)
    requires a < pages * PAGE
    ensures NextPage(a) <= pages * PAGE
  {
  }

  /** A byte of memory after data has passed over it that goes round a memory of the given size. */
  function MetRound(x: byte, data: seq<byte>, d: nat, size: nat): byte
    requires size > 0
    decreases |data| - d
  {
    if d < |data| then MetRound(BitAnd(x, data[d]), data, d + size, size) else x
  }

  /**
   Data that runs over the end of the device goes on at its beginning, as often as it takes: cell k meets the
   byte that is as far from the start of the data as k is from the offset, and those a whole round further on.
   */
  lemma WrappedDataMeans(mem: seq<byte>, fourBytes: bool, offset: nat, data: seq<byte>, k: nat)
    requires k < |mem| && |mem| % PAGE == 0 && Reach(fourBytes) % |mem| == 0
    ensures ProgramPieces(mem, fourBytes, Pieces(offset, data))[k]
         == MetRound(mem[k], data, Gap(|mem|, CellAt(|mem|, fourBytes, offset), k), |mem|)
  {
    forall o: nat
      ensures Aligned(|mem|, fourBytes, o)
    {
      WholePagesAligned(|mem|, fourBytes, o);
    }
    ProgramPiecesWrap(mem, fourBytes, offset, data, k);
  }

  lemma {:induction false} ProgramPiecesWrap(mem: seq<byte>, fourBytes: bool, offset: nat, data: seq<byte>, k: nat)
    requires k < |mem| && forall o: nat :: Aligned(|mem|, fourBytes, o)
    ensures ProgramPieces(mem, fourBytes, Pieces(offset, data))[k]
         == MetRound(mem[k], data, Gap(|mem|, CellAt(|mem|, fourBytes, offset), k), |mem|)
    decreases |data|
  {
    var next := NextPage(offset);
    var n := next - offset;
    assert Aligned(|mem|, fourBytes, offset);
    NextCell(|mem|, fourBytes, offset, k);
    if data == [] {
    } else if |data| <= n {
      FirstPieceWrap(mem, fourBytes, offset, data, |data|, k);
      OnePiece(mem, fourBytes, offset, data);
      MetOnce(mem[k], data, Gap(|mem|, CellAt(|mem|, fourBytes, offset), k), |mem|);
    } else {
      var mem' := Program(mem, CellAt(|mem|, fourBytes, offset), data[..n]);
      FirstPieceWrap(mem, fourBytes, offset, data, n, k);
      ProgramFirstPiece(mem, fourBytes, offset, data, n);
      ProgramPiecesWrap(mem', fourBytes, next, data[n..], k);
      MetRoundInTwo(mem[k], data, n, Gap(|mem|, CellAt(|mem|, fourBytes, offset), k),
                    Gap(|mem|, CellAt(|mem|, fourBytes, next), k), |mem|);
    }
  }

  lemma MetOnce(x: byte, data: seq<byte>, d: nat, size: nat)
    requires size > 0 && |data| <= size
    ensures MetRound(x, data, d, size) == Met(x, data, d)
  {
  }

  lemma MetRoundInTwo(x: byte, data: seq<byte>, n: nat, d: nat, d': nat, size: nat)
    requires n < |data| && n <= size && 0 < size && d' == if n <= d then d - n else d - n + size
    ensures MetRound(Met(x, data[..n], d), data[n..], d', size) == MetRound(x, data, d, size)
  {
    if n <= d {
      MetShifted(x, data, n, d, size);
    } else {
      MetShifted(BitAnd(x, data[d]), data, n, d + size, size);
    }
  }

  lemma {:induction false} MetShifted(x: byte, data: seq<byte>, n: nat, d: nat, size: nat)
    requires n <= |data| && n <= d && size > 0
    ensures MetRound(x, data[n..], d - n, size) == MetRound(x, data, d, size)
    decreases |data| - d
  {
    if d < |data| {
      MetShifted(BitAnd(x, data[d]), data, n, d + size, size);
    }
  }

  /** The next page is as much nearer to cell k, going round. */
  lemma NextCell(size: nat, fourBytes: bool, offset: nat, k: nat)
    requires size > 0 && k < size && Aligned(size, fourBytes, offset)
    ensures var d, n := Gap(size, CellAt(size, fourBytes, offset), k), NextPage(offset) - offset;
            && 0 <= d < size && 0 <= n <= size
            && Gap(size, CellAt(size, fourBytes, NextPage(offset)), k) == if n <= d then d - n else d - n + size
  {
  }

  lemma FirstPieceWrap(mem: seq<byte>, fourBytes: bool, offset: nat, data: seq<byte>, n: nat, k: nat)
    requires k < |mem| && Aligned(|mem|, fourBytes, offset)
    requires data != [] && n == Min(|data|, NextPage(offset) - offset)
    ensures Program(mem, CellAt(|mem|, fourBytes, offset), data[..n])[k]
         == Met(mem[k], data[..n], Gap(|mem|, CellAt(|mem|, fourBytes, offset), k))
  {
    var a := CellAt(|mem|, fourBytes, offset);
    InPageUpTo(a, n);
    ProgramInPage(mem, Piece(a, data[..n]), k);
  }

  // ---------------------------------------------------------------- what a write leaves behind

  /** Address x is one to be written, and holds something else than what is to be there. */
  predicate DiffersAt(mem: seq<byte>, offset: int, src: seq<byte>, x: int) {
    offset <= x < offset + |src| && 0 <= x < |mem| && mem[x] != src[x - offset]
  }

  /** The device holds all that is to be written. */
  ghost predicate AllThere(mem: seq<byte>, offset: int, src: seq<byte>) {
    forall x :: !DiffersAt(mem, offset, src, x)
  }

  /** Something in the block of address k has to change. */
  ghost predicate BlockDiffers(mem: seq<byte>, regions: seq<Region>, offset: int, src: seq<byte>, k: int) {
    0 <= offset && exists x :: SameBlock(regions, x, k) && DiffersAt(mem, offset, src, x)
  }

  /** What address k holds after src was written at the offset. */
  ghost function Written(mem: seq<byte>, regions: seq<Region>, offset: int, src: seq<byte>, k: nat): byte
    requires k < |mem|
  {
    if !BlockDiffers(mem, regions, offset, src, k) then mem[k]
    else if offset <= k < offset + |src| then src[k - offset]
    else 0xFF
  }

  /** Every address of the range that the device has holds its byte of the source. */
  lemma WrittenHoldsSource(mem: seq<byte>, regions: seq<Region>, offset: nat, src: seq<byte>, k: nat)
    requires Tiled(regions) && |mem| == End(regions[|regions| - 1])
    requires offset <= k < offset + |src| && k < |mem|
    ensures Written(mem, regions, offset, src, k) == src[k - offset]
  {
    var i := AddressHasRegion(regions, k);
    assert InBlockOf(regions[i], k, k);
    assert SameBlock(regions, k, k);
  }

  /** Nothing else is touched but bytes that share a block with the range, and these are kept or erased. */
  lemma WrittenElsewhere(mem: seq<byte>, regions: seq<Region>, offset: int, src: seq<byte>, k: nat)
    requires k < |mem| && !(offset <= k < offset + |src|)
    ensures Written(mem, regions, offset, src, k) in {mem[k], 0xFF}
    ensures (forall x :: offset <= x < offset + |src| ==> !SameBlock(regions, x, k))
            ==> Written(mem, regions, offset, src, k) == mem[k]
  {
  }

  // ---------------------------------------------------------------- block boundaries

  /** Where block j of region r starts; j == r.blocks gives the end of the region. */
  function Boundary(r: Region, j: nat): int { r.offset + j * r.blockSize }

  lemma BoundaryInRegion(r: Region, j: nat)
    requires TiledRegion(r) && j <= r.blocks
    ensures r.offset <= Boundary(r, j) <= End(r)
    ensures Boundary(r, 0) == r.offset && Boundary(r, r.blocks) == End(r)
    ensures Boundary(r, j + 1) == Boundary(r, j) + r.blockSize
  {
    var rest := r.blocks - j;
    assert r.size == j * r.blockSize + rest * r.blockSize;
  }

  /** Dividing tells on which side of a multiple a number lies. */
  lemma QuotientSide(x: int, j: int, m: int)
    requires 0 < m
    ensures x < j * m <==> x / m < j
  {
    var q := x / m;
    assert q * m <= x < q * m + m;
    if q < j {
      Times(q + 1, j, m);
    } else {
      Times(j, q, m);
    }
  }

  /** Addresses on different sides of a block boundary are in different blocks. */
  lemma BoundarySeparates(regions: seq<Region>, i: nat, j: nat, x: int, k: int)
    requires Tiled(regions) && i < |regions| && j <= regions[i].blocks
    requires x < Boundary(regions[i], j) <= k || k < Boundary(regions[i], j) <= x
    ensures !SameBlock(regions, x, k)
  {
    var cut := Boundary(regions[i], j);
    BoundaryInRegion(regions[i], j);
    forall n | 0 <= n < |regions|
      ensures !InBlockOf(regions[n], x, k)
    {
      if n < i {
        RegionsAscend(regions, n, i);
      } else if i < n {
        RegionsAscend(regions, i, n);
      } else {
        var r := regions[i];
        QuotientSide(x - r.offset, j, r.blockSize);
        QuotientSide(k - r.offset, j, r.blockSize);
        if BlockStart(r, x) == BlockStart(r, k) {
          SameMultiple((x - r.offset) / r.blockSize, (k - r.offset) / r.blockSize, r.blockSize);
        }
      }
    }
  }

  lemma SameMultiple(a: int, b: int, m: int)
    requires 0 < m && a * m == b * m
    ensures a == b
  {
  }

  /** Addresses between the same two boundaries are in the same block. */
  lemma BlockHolds(regions: seq<Region>, i: nat, j: nat, x: int, k: int)
    requires Tiled(regions) && i < |regions| && j < regions[i].blocks
    requires Boundary(regions[i], j) <= x < Boundary(regions[i], j + 1)
    requires Boundary(regions[i], j) <= k < Boundary(regions[i], j + 1)
    ensures SameBlock(regions, x, k)
    ensures BlockStart(regions[i], k) == Boundary(regions[i], j)
  {
    var r := regions[i];
    BoundaryInRegion(r, j);
    BoundaryInRegion(r, j + 1);
    QuotientSide(x - r.offset, j, r.blockSize);
    QuotientSide(x - r.offset, j + 1, r.blockSize);
    QuotientSide(k - r.offset, j, r.blockSize);
    QuotientSide(k - r.offset, j + 1, r.blockSize);
    assert (x - r.offset) / r.blockSize == j == (k - r.offset) / r.blockSize;
    assert InBlockOf(r, x, k);
  }

  // ---------------------------------------------------------------- progress of a write

  /** Below the cut the memory is as it is to be, from the cut on it is as it was. */
  ghost predicate Progress(was: seq<byte>, mem: seq<byte>, regions: seq<Region>, offset: int, src: seq<byte>,
                           cut: int) {
    && |mem| == |was|
    && (forall k: nat :: k < |was| && k < cut ==> mem[k] == Written(was, regions, offset, src, k))
    && (forall k: nat :: k < |was| && cut <= k ==> mem[k] == was[k])
  }

  /** All there is to write lies on one side of the stretch, so the stretch is as it is to be. */
  lemma ProgressOver(was: seq<byte>, mem: seq<byte>, regions: seq<Region>, offset: int, src: seq<byte>,
                     i: nat, j: nat, i': nat, j': nat)
    requires Tiled(regions) && i < |regions| && j <= regions[i].blocks
    requires i' < |regions| && j' <= regions[i'].blocks
    requires var from, to := Boundary(regions[i], j), Boundary(regions[i'], j');
             && Progress(was, mem, regions, offset, src, from)
             && (offset < 0 || offset + |src| <= from || to <= offset)
    ensures Progress(was, mem, regions, offset, src, Boundary(regions[i'], j'))
            || Boundary(regions[i'], j') < Boundary(regions[i], j)
  {
    var from, to := Boundary(regions[i], j), Boundary(regions[i'], j');
    forall k: nat | k < |was| && from <= k < to
      ensures Written(was, regions, offset, src, k) == was[k]
    {
      forall x | DiffersAt(was, offset, src, x) && 0 <= offset
        ensures !SameBlock(regions, x, k)
      {
        if x < from {
          BoundarySeparates(regions, i, j, x, k);
        } else {
          BoundarySeparates(regions, i', j', x, k);
        }
      }
    }
  }

  /** What updating the block between two boundaries does: nothing, or erase and put the data. */
  ghost predicate BlockUpdated(mem: seq<byte>, mem': seq<byte>, from: int, to: int, at: int, data: seq<byte>)
    requires 0 <= from <= at && at + |data| <= to <= |mem|
  {
    && |mem'| == |mem|
    && forall k: nat :: k < |mem| ==>
         mem'[k] == if !(from <= k < to) || mem[at..at + |data|] == data then mem[k]
                    else if at <= k < at + |data| then data[k - at] else 0xFF
  }

  /** The part of the source that goes into the block: from "at", which is where it starts or the block does. */
  ghost predicate Slice(offset: int, src: seq<byte>, from: int, to: int, at: int, data: seq<byte>) {
    && 0 <= offset <= at && from <= at && (at == offset || at == from)
    && at + |data| <= to && at + |data| <= offset + |src|
    && (at + |data| == to || at + |data| == offset + |src|)
    && data == src[at - offset..at - offset + |data|]
  }

  lemma SliceDiffers(was: seq<byte>, regions: seq<Region>, offset: int, src: seq<byte>,
                     i: nat, j: nat, at: int, data: seq<byte>, k: nat)
    requires Tiled(regions) && i < |regions| && j < regions[i].blocks
    requires var from, to := Boundary(regions[i], j), Boundary(regions[i], j + 1);
             0 <= from <= k < to <= |was| && Slice(offset, src, from, to, at, data)
    ensures BlockDiffers(was, regions, offset, src, k) <==> was[at..at + |data|] != data
  {
    var from, to := Boundary(regions[i], j), Boundary(regions[i], j + 1);
    if was[at..at + |data|] != data {
      var x := DifferenceIn(was, offset, src, at, data);
      BlockHolds(regions, i, j, x, k);
    } else if BlockDiffers(was, regions, offset, src, k) {
      var x :| SameBlock(regions, x, k) && DiffersAt(was, offset, src, x);
      if x < from {
        BoundarySeparates(regions, i, j, x, k);
      } else if to <= x {
        BoundarySeparates(regions, i, j + 1, x, k);
      } else {
        NoDifferenceIn(was, offset, src, at, data, x);
      }
    }
  }

  lemma DifferenceIn(was: seq<byte>, offset: int, src: seq<byte>, at: int, data: seq<byte>) returns (x: int)
    requires 0 <= offset <= at && at + |data| <= |was| && at + |data| <= offset + |src|
    requires data == src[at - offset..at - offset + |data|] && was[at..at + |data|] != data
    ensures at <= x < at + |data| && DiffersAt(was, offset, src, x)
  {
    var n :| 0 <= n < |data| && was[at..at + |data|][n] != data[n];
    x := at + n;
  }

  lemma NoDifferenceIn(was: seq<byte>, offset: int, src: seq<byte>, at: int, data: seq<byte>, x: int)
    requires 0 <= offset <= at <= x < at + |data| && at + |data| <= |was| && at + |data| <= offset + |src|
    requires data == src[at - offset..at - offset + |data|] && was[at..at + |data|] == data
    ensures !DiffersAt(was, offset, src, x)
  {
    assert was[at..at + |data|][x - at] == was[x] && data[x - at] == src[x - offset];
  }

  /** Updating the next block with its part of the source moves the cut over the block. */
  lemma ProgressBlock(was: seq<byte>, mem: seq<byte>, mem': seq<byte>, regions: seq<Region>, offset: int,
                      src: seq<byte>, i: nat, j: nat, at: int, data: seq<byte>)
    requires Tiled(regions) && i < |regions| && j < regions[i].blocks
    requires var from, to := Boundary(regions[i], j), Boundary(regions[i], j + 1);
             && 0 <= from && from + regions[i].blockSize == to <= |was|
             && Slice(offset, src, from, to, at, data)
             && Progress(was, mem, regions, offset, src, from)
             && BlockUpdated(mem, mem', from, to, at, data)
    ensures Progress(was, mem', regions, offset, src, Boundary(regions[i], j + 1))
  {
    var from, to := Boundary(regions[i], j), Boundary(regions[i], j + 1);
    assert mem[at..at + |data|] == was[at..at + |data|];
    forall k: nat | k < |was| && from <= k < to
      ensures mem'[k] == Written(was, regions, offset, src, k)
    {
      SliceDiffers(was, regions, offset, src, i, j, at, data, k);
    }
  }

  // ---------------------------------------------------------------- the device

  /** The sign of the first difference. */
  function CompareBytes(a: seq<byte>, b: seq<byte>): (r: int)
    requires |a| == |b|
    ensures r == 0 <==> a == b
  {
    if a == [] then 0
    else if a[0] != b[0] then (a[0] as int) - (b[0] as int)
    else
      assert a == [a[0]] + a[1..] && b == [b[0]] + b[1..];
      CompareBytes(a[1..], b[1..])
  }

  lemma {:induction false} CompareSign(a: seq<byte>, b: seq<byte>, k: nat)
    requires |a| == |b| && k < |a| && a[..k] == b[..k] && a[k] != b[k]
    ensures CompareBytes(a, b) < 0 <==> a[k] < b[k]
  {
    if k > 0 {
      assert a[0] == a[..k][0] == b[..k][0] == b[0];
      assert a[1..][..k - 1] == a[..k][1..] && b[1..][..k - 1] == b[..k][1..];
      CompareSign(a[1..], b[1..], k - 1);
    }
  }

  class FlashDev {
    const port: SpiPort
    var regions: seq<Region>
    var sizeInBytes: int
    var pageSize: int
    var siliconId: nat
    var fourBytes: bool

    constructor (p: SpiPort)
      ensures port == p
    {
      port, regions, sizeInBytes, pageSize, siliconId, fourBytes := p, [], 0, 0, 0, false;
    }

    function Size(): int
      reads this
      requires regions != []
    {
      End(regions[|regions| - 1])
    }

    /** The description fits the chip, and the chip is ready. */
    ghost predicate Valid()
      reads this, port
    {
      && port.Idle() && Ready(port.chip)
      && regions == port.chip.regions && pageSize == PAGE
      && Addressable(port.chip, fourBytes) && |port.chip.mem| <= 0x8000_0000
    }

    /** What an operation leaves of the old chip: its memory is "mem" after n erases and programs. */
    twostate predicate Did(mem: seq<byte>, n: nat)
      reads this, port
    {
      Operated(old(port.chip), port.chip, mem, n)
    }

    /**
     Asks the chip what it is.  A recognised chip gets its description; if the chip is laid out as
     described, every later operation may be used.
     */
    method Query() returns (rc: int)
      requires port.Idle() && Ready(port.chip)
      modifies this, port
      ensures port.chip == old(port.chip)
      ensures siliconId == if port.chip.signature in SIGNATURES then port.chip.signature else Number(port.chip.id)
      ensures var c := port.chip;
              match Identify(c.signature, Number(c.id))
              case Unknown => rc == -ENODEV && !fourBytes && pageSize == PAGE && regions == old(regions)
              case Known(region, four) =>
                && rc == 0 && regions == [region] && fourBytes == four && pageSize == PAGE
                && sizeInBytes == region.size && Tiled(regions)
                && sizeInBytes == Numerals.Power(2, SizeExponent(c.signature, Number(c.id)))
                && (c.regions == [region] ==> Valid())
    {
      fourBytes := false;
      var signature := ReadElectronicSignature(port);
      var id := 0;
      siliconId := signature;
      if signature !in SIGNATURES {
        id := ReadDeviceId(port);
        siliconId := id;
      }
      match Identify(signature, id) {
        case Unknown =>
          rc := -ENODEV;
        case Known(region, four) =>
          GeometrySound(signature, id, 0);
          IdentifyMeans(signature, id);
          rc := 0;
          regions, fourBytes := [region], four;
          sizeInBytes := region.size;
      }
      pageSize := PAGE;
    }

    method EraseBlock(blockOffset: int) returns (rc: int)
      requires Valid() && -0x8000_0000 <= blockOffset < 0x8000_0000
      modifies port
      ensures Valid()
      ensures rc == if 0 <= blockOffset < Size() then 0 else -EIO
      ensures rc == 0 ==> Did(Erase(old(port.chip), blockOffset), 1)
      ensures rc != 0 ==> port.chip == old(port.chip)
    {
      TestAddressMeans(regions, blockOffset);
      rc := TestAddress(regions, blockOffset);
      if rc >= 0 {
        SectorErase(port, blockOffset, fourBytes);
      }
    }

    /** The source computes this by masking the low bits of the sum. */
    method NextPageStart(offset: nat) returns (next: nat)
      requires pageSize == PAGE
      ensures next == NextPage(offset)
    {
      next := (offset + pageSize) / pageSize * pageSize;
    }

    /** Programs as much of the data as fits the page. */
    method WritePiece(at: nat, data: seq<byte>) returns (next: nat, n: nat)
      requires Valid() && data != []
      modifies port
      ensures Valid() && next == NextPage(at) && n == Min(|data|, next - at)
      ensures Did(port.chip.mem, 1)
      ensures |Pieces(at, data)| == 1 + |Pieces(next, data[n..])|
      ensures port.chip.mem != []
      ensures ProgramPieces(port.chip.mem, fourBytes, Pieces(next, data[n..]))
           == ProgramPieces(old(port.chip.mem), fourBytes, Pieces(at, data))
    {
      next := NextPageStart(at);
      n := Min(|data|, next - at);
      ProgramFirstPiece(port.chip.mem, fourBytes, at, data, n);
      var sent := WriteBuffer(port, at, data[..n], fourBytes);
    }

    /** Programs data that starts in the device, one page piece at a time. */
    method WriteBlock(blockOffset: int, dataOffset: int, data: seq<byte>) returns (rc: int)
      requires Valid() && -0x8000_0000 <= dataOffset < 0x8000_0000
      modifies port
      ensures Valid()
      ensures rc == if 0 <= dataOffset < Size() then 0 else -EIO
      // each piece is one program command to the chip
      ensures rc == 0 ==>
                Did(ProgramPieces(old(port.chip.mem), fourBytes, Pieces(dataOffset, data)), |Pieces(dataOffset, data)|)
      ensures rc != 0 ==> port.chip == old(port.chip)
    {
      TestAddressMeans(regions, dataOffset);
      rc := TestAddress(regions, dataOffset);
      if rc >= 0 {
        var at: nat, rest := dataOffset, data;
        ghost var all := Pieces(dataOffset, data);
        ghost var wrote: nat := 0;
        while rest != []
          invariant Valid() && port.chip.mem != []
          invariant ProgramPieces(port.chip.mem, fourBytes, Pieces(at, rest))
                 == ProgramPieces(old(port.chip.mem), fourBytes, all)
          invariant wrote + |Pieces(at, rest)| == |all| && Did(port.chip.mem, wrote)
          decreases |rest|
        {
          var next, n := WritePiece(at, rest);
          wrote := wrote + 1;
          at, rest := next, rest[n..];
        }
      }
    }

    method Read(offset: int, dest: array<byte>, length: nat) returns (rc: int)
      requires Valid() && -0x8000_0000 <= offset < 0x8000_0000 && length <= dest.Length
      modifies port, dest
      ensures Valid() && Did(old(port.chip.mem), 0)
      ensures rc == if 0 <= offset < Size() then 0 else -EIO
      ensures rc == 0 ==>
                && dest[..length] == MemoryFrom(port.chip.mem, offset, length)
                && dest[length..] == old(dest[length..])
      ensures rc != 0 ==> dest[..] == old(dest[..])
    {
      TestAddressMeans(regions, offset);
      rc := TestAddress(regions, offset);
      if rc >= 0 {
        rc := ReadBuffer(port, offset, dest, length, fourBytes);
        if rc == length {
          rc := 0;
        }
      }
    }

    /** Compares one chunk of n bytes; a read that fails counts as a difference. */
    method CompareChunk(src: seq<byte>, offset: int, n: nat, current: nat, size: nat, chunkBuffer: array<byte>)
      returns (r: int)
      requires Valid() && 0 < size <= CHUNK <= chunkBuffer.Length && current + size <= n <= |src|
      requires current % CHUNK == 0
      requires -0x8000_0000 <= offset && offset + n <= 0x8000_0000
      requires port.chip.mem != [] && (0 <= offset ==> Holds(port.chip.mem, offset, src, current))
      modifies port, chunkBuffer
      ensures Valid() && Did(old(port.chip.mem), 0) && port.chip.mem != []
      ensures r == 0 ==> 0 <= offset + current < Size()
                         && (0 <= offset ==> Holds(port.chip.mem, offset, src, current + size))
      ensures r != 0 ==> (r == -1 && !(0 <= offset + current < Size()))
                         || (0 <= offset + current < Size() && (0 <= offset ==> !Holds(port.chip.mem, offset, src, n)))
      ensures r != 0 && 0 <= offset ==> SignRight(port.chip.mem, offset, src, n, Size(), r)
    {
      r := Read(offset + current, chunkBuffer, size);
      if r < 0 {
        if 0 <= offset {
          NoSign(port.chip.mem, offset, src, n, current, Size(), -1);
        }
        return -1;
      }
      if 0 <= offset {
        ChunkDecides(port.chip.mem, offset, src, n, current, size);
      }
      r := CompareBytes(src[current..current + size], chunkBuffer[..size]);
      if 0 <= offset && r != 0 {
        ChunkSign(port.chip.mem, offset, src, n, current, size, Size(), r);
      }
    }

    /** The first bytes have been compared and found to be the same. */
    ghost predicate SameSoFar(src: seq<byte>, offset: int, n: nat, current: nat)
      reads this, port
    {
      && Valid() && port.chip.mem != [] && current <= n <= |src|
      && (current < n ==> current % CHUNK == 0)
      && (current > 0 ==> 0 <= offset && offset + LastChunk(current) < Size())
      && (0 <= offset ==> Holds(port.chip.mem, offset, src, current))
    }

    /** Compares memory with the source, a chunk at a time. */
    method Memcmp(src: seq<byte>, offset: int, n: nat) returns (r: int)
      requires Valid() && n <= |src| && -0x8000_0000 <= offset && offset + n <= 0x8000_0000
      modifies port
      ensures Valid() && Did(old(port.chip.mem), 0)
      ensures port.chip.mem != []
      ensures r == 0 <==> n == 0
                          || (0 <= offset && offset + LastChunk(n) < Size()
                              && MemoryFrom(port.chip.mem, offset, n) == src[..n])
      ensures !(0 <= offset < Size()) && n > 0 ==> r == -1
      ensures r != 0 && 0 <= offset ==> SignRight(port.chip.mem, offset, src, n, Size(), r)
    {
      var chunkBuffer := new byte[CHUNK];
      var current: nat, left: nat := 0, n;
      while left > 0
        invariant current + left == n && SameSoFar(src, offset, n, current) && Did(old(port.chip.mem), 0)
      {
        var size := if left > CHUNK then CHUNK else left;
        ChunkStart(current, size, n);
        r := CompareChunk(src, offset, n, current, size, chunkBuffer);
        if r != 0 {
          if 0 <= offset {
            HoldsMeans(port.chip.mem, offset, src, n);
          }
          return;
        }
        left := left - size;
        current := current + size;
      }
      if 0 <= offset {
        HoldsMeans(port.chip.mem, offset, src, n);
      }
      r := 0;
    }

    /** The part of a write that falls into block j of region i. */
    method UpdateBlock(ghost i: nat, ghost j: nat, blockStart: int, offset: int, data: seq<byte>) returns (rc: int)
      requires Valid() && i < |regions| && j < regions[i].blocks
      requires var r := regions[i];
               && blockStart == Boundary(r, j) && 0 <= blockStart <= offset
               && offset + |data| <= blockStart + r.blockSize == Boundary(r, j + 1) <= Size()
               && offset < Size()
      modifies port
      ensures Valid() && rc == 0
      ensures BlockUpdated(old(port.chip.mem), port.chip.mem, blockStart, Boundary(regions[i], j + 1), offset, data)
      // a block that is right already is not erased
      ensures old(port.chip.mem)[offset..offset + |data|] == data ==> port.chip.ops == old(port.chip.ops)
    {
      rc := 0;
      assert data[..|data|] == data;
      MemoryInRange(port.chip.mem, offset, |data|);
      var cmp := Memcmp(data, offset, |data|);
      if cmp != 0 {
        ghost var was := port.chip;
        rc := EraseBlock(blockStart);
        if rc == 0 {
          rc := WriteBlock(blockStart, offset, data);
        }
        ErasedThenProgrammed(was, fourBytes, i, j, Boundary(regions[i], j), Boundary(regions[i], j + 1), offset, data);
      }
    }

    /** Everything up to the boundary has been dealt with; "rest" is still to go, from "off" on. */
    ghost predicate Upto(was: seq<byte>, offset: int, src: seq<byte>, i: nat, j: nat, off: int, rest: seq<byte>)
      requires i < |regions|
      reads this, port
    {
      var cut := Boundary(regions[i], j);
      && Progress(was, port.chip.mem, regions, offset, src, cut)
      && |rest| <= |src| && rest == src[|src| - |rest|..] && off == offset + (|src| - |rest|)
      && (0 <= offset ==> cut <= off)
      && (|rest| < |src| ==> 0 <= offset && rest != [] && off == cut)
    }

    /** One turn of the inner loop. */
    method WriteIntoBlock(ghost was: seq<byte>, ghost offset: int, ghost src: seq<byte>,
                          ghost i: nat, ghost j: nat, cur: int, blockSize: int, off: int, rest: seq<byte>)
      returns (rc: int, finished: bool, off': int, rest': seq<byte>)
      requires Valid() && |was| == |port.chip.mem| && i < |regions| && j < regions[i].blocks
      requires cur == Boundary(regions[i], j) && blockSize == regions[i].blockSize
      requires Upto(was, offset, src, i, j, off, rest) && 0 <= offset
      modifies port
      ensures Valid() && rc == 0
      ensures finished ==> Progress(was, port.chip.mem, regions, offset, src, Size())
      ensures !finished ==> Upto(was, offset, src, i, j + 1, off', rest')
      ensures AllThere(was, offset, src) ==> port.chip.ops == old(port.chip.ops)
    {
      rc, finished, off', rest' := 0, false, off, rest;
      BlockInside(regions, i, j);
      if off >= cur && off < cur + blockSize {
        var n := Min(|rest|, cur + blockSize - off);
        rc := WriteSlice(was, offset, src, i, j, cur, off, rest[..n]);
        if |rest| == n || rc != 0 {
          finished := true;
          DoneEarly(was, offset, src, i, j + 1);
        } else {
          rest' := rest[n..];
          off' := cur + blockSize;
        }
      } else {
        ProgressOver(was, port.chip.mem, regions, offset, src, i, j, i, j + 1);
      }
    }

    /** Nothing of the source lies above the boundary where it ends. */
    lemma DoneEarly(was: seq<byte>, offset: int, src: seq<byte>, i: nat, j: nat)
      requires Valid() && |was| == |port.chip.mem| && i < |regions| && j <= regions[i].blocks
      requires Progress(was, port.chip.mem, regions, offset, src, Boundary(regions[i], j))
      requires 0 <= offset && offset + |src| <= Boundary(regions[i], j)
      ensures Progress(was, port.chip.mem, regions, offset, src, Size())
    {
      var last := |regions| - 1;
      BoundaryInRegion(regions[last], regions[last].blocks);
      ProgressOver(was, port.chip.mem, regions, offset, src, i, j, last, regions[last].blocks);
    }

    /** Updates one block with its part of the source. */
    method WriteSlice(ghost was: seq<byte>, ghost offset: int, ghost src: seq<byte>,
                      ghost i: nat, ghost j: nat, cur: int, off: int, data: seq<byte>)
      returns (rc: int)
      requires Valid() && |was| == |port.chip.mem| && i < |regions| && j < regions[i].blocks
      requires cur == Boundary(regions[i], j) && off < Boundary(regions[i], j + 1)
      requires Progress(was, port.chip.mem, regions, offset, src, cur)
      requires Slice(offset, src, cur, Boundary(regions[i], j + 1), off, data)
      modifies port
      ensures Valid() && rc == 0
      ensures Progress(was, port.chip.mem, regions, offset, src, Boundary(regions[i], j + 1))
      ensures AllThere(was, offset, src) ==> port.chip.ops == old(port.chip.ops)
    {
      BlockInside(regions, i, j);
      ghost var before := port.chip.mem;
      assert before[off..off + |data|] == was[off..off + |data|];
      if AllThere(was, offset, src) {
        NothingDiffers(was, offset, src, off, data);
      }
      rc := UpdateBlock(i, j, cur, off, data);
      ProgressBlock(was, before, port.chip.mem, regions, offset, src, i, j, off, data);
    }

    /** The loop over the blocks of one region. */
    method WriteIntoRegion(ghost was: seq<byte>, ghost offset: int, ghost src: seq<byte>, i: nat,
                           off: int, rest: seq<byte>)
      returns (rc: int, finished: bool, off': int, rest': seq<byte>)
      requires Valid() && |was| == |port.chip.mem| && i < |regions| && 0 <= offset
      requires Upto(was, offset, src, i, 0, off, rest)
      modifies port
      ensures Valid() && rc == 0
      ensures finished ==> Progress(was, port.chip.mem, regions, offset, src, Size())
      ensures !finished ==> Upto(was, offset, src, i, regions[i].blocks, off', rest')
      ensures AllThere(was, offset, src) ==> port.chip.ops == old(port.chip.ops)
    {
      var r := regions[i];
      var cur, j := r.offset, 0;
      rc, finished, off', rest' := 0, false, off, rest;
      while j < r.blocks
        invariant 0 <= j <= r.blocks && cur == Boundary(r, j)
        invariant Valid() && |was| == |port.chip.mem|
        invariant Upto(was, offset, src, i, j, off', rest')
        invariant AllThere(was, offset, src) ==> port.chip.ops == old(port.chip.ops)
      {
        rc, finished, off', rest' := WriteIntoBlock(was, offset, src, i, j, cur, r.blockSize, off', rest');
        if finished {
          return;
        }
        BoundaryInRegion(r, j);
        cur := cur + r.blockSize;
        j := j + 1;
      }
    }

    /** One turn of the outer loop: all of region i is dealt with, or all of the device. */
    method WriteOneRegion(ghost was: seq<byte>, ghost offset: int, ghost src: seq<byte>, i: nat, off: int,
                          rest: seq<byte>)
      returns (rc: int, finished: bool, off': int, rest': seq<byte>)
      requires Valid() && |was| == |port.chip.mem| && i < |regions|
      requires Upto(was, offset, src, i, 0, off, rest)
      modifies port
      ensures Valid() && rc == 0
      ensures finished ==> Progress(was, port.chip.mem, regions, offset, src, Size())
      ensures !finished ==> Upto(was, offset, src, i, regions[i].blocks, off', rest')
      ensures AllThere(was, offset, src) ==> port.chip.ops == old(port.chip.ops)
    {
      var r := regions[i];
      rc, finished, off', rest' := 0, false, off, rest;
      BoundaryInRegion(r, r.blocks);
      if off >= r.offset && off < r.offset + r.size {
        rc, finished, off', rest' := WriteIntoRegion(was, offset, src, i, off, rest);
      } else {
        ProgressOver(was, port.chip.mem, regions, offset, src, i, 0, i, r.blocks);
      }
    }

    /** Where one region ends the next one starts. */
    lemma NextRegion(was: seq<byte>, offset: int, src: seq<byte>, i: nat, off: int, rest: seq<byte>)
      requires Valid() && |was| == |port.chip.mem| && i < |regions|
      requires Upto(was, offset, src, i, regions[i].blocks, off, rest)
      ensures i + 1 < |regions| ==> Upto(was, offset, src, i + 1, 0, off, rest)
      ensures i + 1 == |regions| ==> Progress(was, port.chip.mem, regions, offset, src, Size())
    {
      BoundaryInRegion(regions[i], regions[i].blocks);
      if i + 1 < |regions| {
        BoundaryInRegion(regions[i + 1], 0);
      }
    }

    /** Writes the source at the offset, erasing the blocks that do not hold their part of it yet. */
    method Write(offset: int, src: seq<byte>) returns (rc: int)
      requires Valid() && -0x8000_0000 <= offset < 0x8000_0000
      modifies port
      ensures Valid() && rc == 0 && |port.chip.mem| == |old(port.chip.mem)|
      ensures forall k: nat :: k < |port.chip.mem| ==>
                port.chip.mem[k] == Written(old(port.chip.mem), regions, offset, src, k)
      // nothing is erased or programmed when all is there already
      ensures AllThere(old(port.chip.mem), offset, src) ==> port.chip.ops == old(port.chip.ops)
    {
      ghost var was := port.chip.mem;
      var i, off, rest := 0, offset, src;
      var finished := false;
      rc := 0;
      BoundaryInRegion(regions[0], 0);
      while i < |regions| && !finished
        invariant 0 <= i <= |regions| && rc == 0
        invariant Valid() && |was| == |port.chip.mem|
        invariant i < |regions| && !finished ==> Upto(was, offset, src, i, 0, off, rest)
        invariant i == |regions| || finished ==> Progress(was, port.chip.mem, regions, offset, src, Size())
        invariant AllThere(was, offset, src) ==> port.chip.ops == old(port.chip.ops)
      {
        rc, finished, off, rest := WriteOneRegion(was, offset, src, i, off, rest);
        if !finished {
          NextRegion(was, offset, src, i, off, rest);
        }
        i := i + 1;
      }
    }
  }

  lemma MemoryInRange(mem: seq<byte>, a: nat, n: nat)
    requires mem != [] && a + n <= |mem|
    ensures MemoryFrom(mem, a, n) == mem[a..a + n]
  {
    forall i | 0 <= i < n
      ensures MemoryFrom(mem, a, n)[i] == mem[a..a + n][i]
    {
      SmallRemainder(a + i, |mem|);
      assert MemoryFrom(mem, a, n)[i] == ByteAt(mem, a + i) == mem[a + i];
    }
  }

  /** Where the last chunk of a comparison of n bytes starts. */
  function LastChunk(n: nat): (start: nat)
    requires n > 0
    ensures start < n
  {
    (n - 1) / CHUNK * CHUNK
  }

  lemma ChunkStart(current: nat, size: nat, n: nat)
    requires current % CHUNK == 0 && 0 < size <= CHUNK && current + size <= n
    ensures LastChunk(current + size) == current <= LastChunk(n)
  {
  }

  /** The first k bytes from the offset on are those of the source. */
  ghost predicate Holds(mem: seq<byte>, offset: nat, src: seq<byte>, k: nat)
    requires mem != [] && k <= |src|
  {
    forall i :: 0 <= i < k ==> ByteAt(mem, offset + i) == src[i]
  }

  /** Position x of the source is the first that the memory does not hold. */
  ghost predicate FirstDifference(mem: seq<byte>, offset: nat, src: seq<byte>, x: nat)
    requires mem != [] && x < |src|
  {
    Holds(mem, offset, src, x) && ByteAt(mem, offset + x) != src[x]
  }

  /** The result has the sign of the first difference, if the chunk with that difference can be read. */
  ghost predicate SignRight(mem: seq<byte>, offset: nat, src: seq<byte>, n: nat, size: int, r: int)
    requires mem != [] && n <= |src|
  {
    forall x: nat :: x < n && FirstDifference(mem, offset, src, x) && offset + LastChunk(x + 1) < size ==>
      (r < 0 <==> src[x] < ByteAt(mem, offset + x))
  }

  lemma NoSign(mem: seq<byte>, offset: nat, src: seq<byte>, n: nat, at: nat, size: int, r: int)
    requires mem != [] && at % CHUNK == 0 && at <= n <= |src| && Holds(mem, offset, src, at) && size <= offset + at
    ensures SignRight(mem, offset, src, n, size, r)
  {
    forall x: nat | x < n && FirstDifference(mem, offset, src, x)
      ensures size <= offset + LastChunk(x + 1)
    {
      assert at <= x;
    }
  }

  /** The first difference is not before what is the same, and not behind any difference. */
  lemma Between(mem: seq<byte>, offset: nat, src: seq<byte>, from: nat, to: nat, x: nat)
    requires mem != [] && from <= |src| && to < |src| && x < |src|
    requires Holds(mem, offset, src, from) && ByteAt(mem, offset + to) != src[to]
    requires FirstDifference(mem, offset, src, x)
    ensures from <= x <= to
  {
  }

  lemma SignAt(mem: seq<byte>, offset: nat, src: seq<byte>, at: nat, got: seq<byte>, due: seq<byte>, k: nat)
    requires mem != [] && k < |due| == |got| && at + |due| <= |src|
    requires forall i :: 0 <= i < |due| ==> got[i] == ByteAt(mem, offset + at + i) && due[i] == src[at + i]
    requires FirstDifference(mem, offset, src, at + k)
    ensures CompareBytes(due, got) < 0 <==> src[at + k] < ByteAt(mem, offset + (at + k))
  {
    forall i | 0 <= i < k
      ensures due[i] == got[i]
    {
      assert ByteAt(mem, offset + (at + i)) == src[at + i];
    }
    assert due[..k] == got[..k];
    CompareSign(due, got, k);
  }

  /** The first difference is in the chunk that differs, and gives the comparison its sign. */
  lemma SignOfChunk(mem: seq<byte>, offset: nat, src: seq<byte>, at: nat, got: seq<byte>, due: seq<byte>, x: nat)
    requires mem != [] && |got| == |due| && at + |due| <= |src| && got != due
    requires forall i :: 0 <= i < |due| ==> got[i] == ByteAt(mem, offset + at + i) && due[i] == src[at + i]
    requires Holds(mem, offset, src, at) && x < |src| && FirstDifference(mem, offset, src, x)
    ensures CompareBytes(due, got) < 0 <==> src[x] < ByteAt(mem, offset + x)
  {
    var d :| 0 <= d < |due| && got[d] != due[d];
    assert ByteAt(mem, offset + (at + d)) != src[at + d];
    Between(mem, offset, src, at, at + d, x);
    SignAt(mem, offset, src, at, got, due, x - at);
  }

  lemma ChunkSign(mem: seq<byte>, offset: nat, src: seq<byte>, n: nat, at: nat, piece: nat, size: int, r: int)
    requires mem != [] && at + piece <= n <= |src| && Holds(mem, offset, src, at)
    requires r != 0 && r == CompareBytes(src[at..at + piece], MemoryFrom(mem, offset + at, piece))
    ensures SignRight(mem, offset, src, n, size, r)
  {
    var got, due := MemoryFrom(mem, offset + at, piece), src[at..at + piece];
    forall x: nat | x < n && FirstDifference(mem, offset, src, x)
      ensures r < 0 <==> src[x] < ByteAt(mem, offset + x)
    {
      SignOfChunk(mem, offset, src, at, got, due, x);
    }
  }

  lemma HoldsMeans(mem: seq<byte>, offset: nat, src: seq<byte>, k: nat)
    requires mem != [] && k <= |src|
    ensures Holds(mem, offset, src, k) <==> MemoryFrom(mem, offset, k) == src[..k]
  {
    var m, s := MemoryFrom(mem, offset, k), src[..k];
    assert forall i :: 0 <= i < k ==> m[i] == ByteAt(mem, offset + i) && s[i] == src[i];
  }

  /** After "at" bytes that are as they should be, what the next chunk decides. */
  lemma ChunkDecides(mem: seq<byte>, offset: nat, src: seq<byte>, n: nat, at: nat, size: nat)
    requires mem != [] && at + size <= n <= |src|
    requires Holds(mem, offset, src, at)
    ensures if MemoryFrom(mem, offset + at, size) == src[at..at + size] then Holds(mem, offset, src, at + size)
            else !Holds(mem, offset, src, n)
  {
    var got, due := MemoryFrom(mem, offset + at, size), src[at..at + size];
    assert forall i :: 0 <= i < size ==> got[i] == ByteAt(mem, offset + at + i) && due[i] == src[at + i];
    if got == due {
      forall i | at <= i < at + size
        ensures ByteAt(mem, offset + i) == src[i]
      {
        assert got[i - at] == due[i - at];
      }
    } else {
      var i :| 0 <= i < size && got[i] != due[i];
      assert ByteAt(mem, offset + (at + i)) != src[at + i];
    }
  }

  /** Erasing at the start of block j of region i erases that block and nothing else. */
  lemma ErasedAt(c: Chip, i: nat, j: nat, k: nat)
    requires Tiled(c.regions) && i < |c.regions| && j < c.regions[i].blocks && k < |c.mem|
    ensures var r := c.regions[i];
            Erase(c, Boundary(r, j))[k] == if Boundary(r, j) <= k < Boundary(r, j + 1) then 0xFF else c.mem[k]
  {
    var r := c.regions[i];
    BoundaryInRegion(r, j);
    if k < Boundary(r, j) {
      BoundarySeparates(c.regions, i, j, Boundary(r, j), k);
    } else if k < Boundary(r, j + 1) {
      BlockHolds(c.regions, i, j, Boundary(r, j), k);
    } else {
      BoundarySeparates(c.regions, i, j + 1, Boundary(r, j), k);
    }
  }

  /** Erasing a block and programming data into it leaves the data, between erased cells. */
  lemma ErasedThenProgrammed(c: Chip, fourBytes: bool, i: nat, j: nat, from: int, to: int, offset: nat,
                             data: seq<byte>)
    requires from <= offset && offset + |data| <= to <= |c.mem|
    requires c.mem[offset..offset + |data|] != data
    requires c.mem != [] && |c.mem| <= Reach(fourBytes)
    requires Tiled(c.regions) && i < |c.regions| && j < c.regions[i].blocks
    requires from == Boundary(c.regions[i], j) && to == Boundary(c.regions[i], j + 1)
    ensures BlockUpdated(c.mem, ProgramPieces(Erase(c, from), fourBytes, Pieces(offset, data)), from, to, offset, data)
  {
    var erased := Erase(c, from);
    forall k: nat | k < |c.mem|
      ensures ProgramPieces(erased, fourBytes, Pieces(offset, data))[k]
           == if !(from <= k < to) then c.mem[k]
              else if offset <= k < offset + |data| then data[k - offset] else 0xFF
    {
      ProgramPiecesMeans(erased, fourBytes, offset, data, k);
      ErasedAt(c, i, j, k);
      if offset <= k < offset + |data| {
        BitAndErased(data[k - offset]);
      }
    }
  }

  /** Blocks lie inside the device. */
  lemma BlockInside(regions: seq<Region>, i: nat, j: nat)
    requires Tiled(regions) && i < |regions| && j < regions[i].blocks
    ensures 0 <= Boundary(regions[i], j) < Boundary(regions[i], j) + regions[i].blockSize == Boundary(regions[i], j + 1)
    ensures Boundary(regions[i], j + 1) <= End(regions[|regions| - 1])
  {
    BoundaryInRegion(regions[i], j);
    BoundaryInRegion(regions[i], j + 1);
    if i < |regions| - 1 {
      RegionsAscend(regions, i, |regions| - 1);
    }
  }

  lemma NothingDiffers(was: seq<byte>, offset: int, src: seq<byte>, at: int, data: seq<byte>)
    requires AllThere(was, offset, src)
    requires 0 <= offset <= at && at + |data| <= |was| && at + |data| <= offset + |src|
    requires data == src[at - offset..at - offset + |data|]
    ensures was[at..at + |data|] == data
  {
    forall k | 0 <= k < |data|
      ensures was[at..at + |data|][k] == data[k]
    {
      assert !DiffersAt(was, offset, src, at + k);
    }
  }
}
