/**
 A two-wire bus with one memory chip on it, down to the levels of the wires.

 SCL is driven by the master.  SDA is low when either side pulls it low.  Whatever happens on the
 wires is heard by a decoder, which turns the waveform back into start conditions, bytes with their
 acknowledge bit, and stop conditions (sections 3.1.3 to 3.1.6 of UM10204), and by the chip.
 */
module I2cBus {
  import opened Arithmetic

  // ---------------------------------------------------------------- bits and bytes

  /** The mask for bit i, most significant bit first. */
  function MaskAt(i: nat): nat
    requires i <= 8
  {
    if i == 0 then 128 else if i == 1 then 64 else if i == 2 then 32 else if i == 3 then 16
    else if i == 4 then 8 else if i == 5 then 4 else if i == 6 then 2 else if i == 7 then 1
    else 0
  }

  /** Whether the bit under a one-bit mask is set. */
  predicate Masked(v: byte, mask: nat)
    requires mask > 0
  {
    v / mask % 2 == 1
  }

  function ToBits(v: byte): (bits: seq<bool>)
    ensures |bits| == 8
  {
    [Masked(v, 128), Masked(v, 64), Masked(v, 32), Masked(v, 16),
     Masked(v, 8), Masked(v, 4), Masked(v, 2), Masked(v, 1)]
  }

  lemma TopBit(v: byte)
    ensures ToBits(v)[0] <==> v >= 128
  {
  }

  /** Shifts bits in, the first one ending up on top. */
  function FromBits(bits: seq<bool>): nat {
    if bits == [] then 0
    else 2 * FromBits(bits[..|bits| - 1]) + if bits[|bits| - 1] then 1 else 0
  }

  lemma {:induction false} FromBitsBound(bits: seq<bool>)
    requires |bits| <= 8
    ensures FromBits(bits) < if |bits| == 8 then 256 else MaskAt(7 - |bits|)
    decreases |bits|
  {
    if bits != [] {
      FromBitsBound(bits[..|bits| - 1]);
    }
  }

  lemma MaskedAt(v: byte, i: nat)
    requires i < 8
    ensures ToBits(v)[i] == Masked(v, MaskAt(i)) && MaskAt(i + 1) == MaskAt(i) / 2
  {
  }

  lemma FromBitsNext(bits: seq<bool>, i: nat)
    requires i < |bits|
    ensures FromBits(bits[..i + 1]) == 2 * FromBits(bits[..i]) + if bits[i] then 1 else 0
  {
    assert bits[..i + 1][..i] == bits[..i];
  }

  /** The first i bits are the number without its last 8 - i bits. */
  lemma {:induction false} TopBits(v: byte, i: nat)
    requires i <= 8
    ensures FromBits(ToBits(v)[..i]) == if i == 8 then v else v / (2 * MaskAt(i))
  {
    if i > 0 {
      TopBits(v, i - 1);
      FromBitsNext(ToBits(v), i - 1);
      MaskedAt(v, i - 1);
      Halves(v, i - 1);
    }
  }

  lemma Halves(v: byte, i: nat)
    requires i < 8
    ensures v / MaskAt(i) == 2 * (v / (2 * MaskAt(i))) + if Masked(v, MaskAt(i)) then 1 else 0
    ensures i < 7 ==> MaskAt(i) == 2 * MaskAt(i + 1)
  {
    Divides(v, MaskAt(i), 2);
    DivMod(v / MaskAt(i), 2);
  }

  /** Shifting the bits of a byte in gives the byte. */
  lemma BitsRoundTrip(v: byte)
    ensures FromBits(ToBits(v)) == v
  {
    TopBits(v, 8);
    assert ToBits(v)[..8] == ToBits(v);
  }

  // ---------------------------------------------------------------- the wires and their decoder

  datatype Line = Line(scl: bool, sda: bool)

  /** What a waveform says. */
  datatype Item = Start | Stop | Byte(data: byte, acked: bool)

  /** "bits": the bits heard since the start condition or the last whole byte. */
  datatype Ear = Ear(framed: bool, bits: seq<bool>, items: seq<Item>)

  predicate IsStart(was: Line, now: Line) { was.scl && now.scl && was.sda && !now.sda }

  predicate IsStop(was: Line, now: Line) { was.scl && now.scl && !was.sda && now.sda }

  predicate IsRise(was: Line, now: Line) { !was.scl && now.scl }

  predicate IsFall(was: Line, now: Line) { was.scl && !now.scl }

  /** One change of the wires.  A bit counts when the clock rises; every ninth bit is an acknowledge. */
  function Hear(e: Ear, was: Line, now: Line): Ear {
    if IsStart(was, now) then Ear(true, [], e.items + [Start])
    else if IsStop(was, now) then Ear(false, [], e.items + [Stop])
    else if IsRise(was, now) && e.framed then
      if |e.bits| < 8 then e.(bits := e.bits + [now.sda])
      else
        FromBitsBound(e.bits[..8]);
        e.(bits := [], items := e.items + [Byte(FromBits(e.bits[..8]), !now.sda)])
    else e
  }

  const SILENCE := Ear(false, [], [])

  /** Both wires idle high. */
  const IDLE_LINE := Line(true, true)

  /** The decoder's verdict on a whole waveform. */
  function Decode(wave: seq<Line>): Ear {
    if wave == [] then SILENCE
    else Hear(Decode(wave[..|wave| - 1]), LastLine(wave[..|wave| - 1]), wave[|wave| - 1])
  }

  function LastLine(wave: seq<Line>): Line {
    if wave == [] then IDLE_LINE else wave[|wave| - 1]
  }

  /** How often SDA changes while the clock stays high. */
  function Edges(wave: seq<Line>): nat {
    if wave == [] then 0
    else
      var was, now := LastLine(wave[..|wave| - 1]), wave[|wave| - 1];
      Edges(wave[..|wave| - 1]) + if was.scl && now.scl && was.sda != now.sda then 1 else 0
  }

  function Conditions(items: seq<Item>): nat {
    if items == [] then 0 else Conditions(items[..|items| - 1]) + if items[|items| - 1].Byte? then 0 else 1
  }

  lemma ConditionsNext(items: seq<Item>, item: Item)
    ensures Conditions(items + [item]) == Conditions(items) + if item.Byte? then 0 else 1
  {
    assert (items + [item])[..|items|] == items;
  }

  /**
   Every change of SDA with the clock high is heard as a start or stop condition, so a waveform that
   says no others has no others (section 3.1.3).
   */
  lemma {:induction false} EdgesAreHeard(wave: seq<Line>)
    ensures Edges(wave) == Conditions(Decode(wave).items)
    decreases |wave|
  {
    if wave != [] {
      var before, was, now := wave[..|wave| - 1], LastLine(wave[..|wave| - 1]), wave[|wave| - 1];
      EdgesAreHeard(before);
      var e := Decode(before);
      var e' := Hear(e, was, now);
      if |e'.items| > |e.items| {
        ConditionsNext(e.items, e'.items[|e.items|]);
      }
    }
  }

  lemma {:induction false} ConditionsSplit(x: seq<Item>, y: seq<Item>)
    ensures Conditions(x + y) == Conditions(x) + Conditions(y)
    decreases |y|
  {
    if y == [] {
      assert x + y == x;
    } else {
      var rest, last := y[..|y| - 1], y[|y| - 1];
      assert x + y == x + rest + [last] && y == rest + [last];
      ConditionsSplit(x, rest);
      ConditionsNext(x + rest, last);
      ConditionsNext(rest, last);
    }
  }

  lemma {:induction false} BytesAreNoConditions(items: seq<Item>)
    requires forall i :: 0 <= i < |items| ==> items[i].Byte?
    ensures Conditions(items) == 0
    decreases |items|
  {
    if items != [] {
      BytesAreNoConditions(items[..|items| - 1]);
    }
  }

  // ---------------------------------------------------------------- the chip

  /** How the chip answers a byte it could acknowledge: not, or after the master has looked so often. */
  datatype Ack = Nack | AckAfter(looks: nat)

  datatype Mode = Idle | Address | AddressHigh | AddressLow | Store | Send | Ignore

  /**
   A memory that answers to one device address and moves its pointer on after every data byte.
   "acks" are its answers to come; when they run out, it acknowledges at once.
   */
  datatype Slave = Slave(
    mem: seq<byte>, device: byte, wide: bool, acks: seq<Ack>,
    mode: Mode, ptr: nat, high: nat,
    bits: seq<bool>,    // the bits of the byte under way
    release: bool,      // the chip lets go of SDA
    lag: nat)           // how many looks are left until it pulls SDA low to acknowledge

  predicate WellFormed(s: Slave) {
    s.mem != [] && s.ptr < |s.mem| && |s.bits| <= 9
  }

  /** The chip would acknowledge the byte in its present mode. */
  predicate Willing(s: Slave, data: byte) {
    match s.mode
    case Address => data - data % 2 == s.device
    case AddressHigh => true
    case AddressLow => true
    case Store => true
    case _ => false
  }

  function NextAck(s: Slave): Ack { if s.acks == [] then AckAfter(0) else s.acks[0] }

  function LaterAcks(s: Slave): seq<Ack> { if s.acks == [] then [] else s.acks[1..] }

  /** After eight bits the chip makes up its mind about the acknowledge. */
  function Decided(s: Slave, data: byte): Slave {
    if !Willing(s, data) then s
    else
      match NextAck(s)
      case Nack => s.(acks := LaterAcks(s))
      case AckAfter(looks) => s.(acks := LaterAcks(s), lag := looks, release := looks != 0)
  }

  /** The cell after p, the last one being followed by the first. */
  function Next(size: nat, p: nat): (p': nat)
    requires p < size
    ensures p' < size
  {
    if p + 1 < size then p + 1 else 0
  }

  function Advanced(s: Slave): Slave
    requires s.mem != [] && s.ptr < |s.mem|
  {
    s.(ptr := Next(|s.mem|, s.ptr))
  }

  /** What a whole byte, acknowledged or not, makes of the chip. */
  function Completed(s: Slave, data: byte, acked: bool): (s': Slave)
    requires s.mem != [] && s.ptr < |s.mem|
    ensures |s'.mem| == |s.mem| && s'.ptr < |s'.mem|
  {
    var r := s.(bits := [], release := true, lag := 0);
    match s.mode
    case Idle => r
    case Ignore => r
    case Send => Sending(Advanced(r).(mode := if acked then Send else Ignore))
    case Address =>
      if !acked then r.(mode := Ignore)
      else if data % 2 == 1 then Sending(r.(mode := Send))
      else if s.wide then r.(mode := AddressHigh)
      else r.(mode := AddressLow, high := 0)
    case AddressHigh => if acked then r.(mode := AddressLow, high := data) else r.(mode := Ignore)
    case AddressLow =>
      if acked then r.(mode := Store, ptr := (s.high * 256 + data) % |s.mem|) else r.(mode := Ignore)
    case Store =>
      if acked then Advanced(r.(mem := s.mem[s.ptr := data])) else r.(mode := Ignore)
  }

  /** A chip that sends puts out the next bit. */
  function Sending(s: Slave): Slave
    requires s.mem != [] && s.ptr < |s.mem|
  {
    if s.mode == Send && |s.bits| < 8 then s.(release := ToBits(s.mem[s.ptr])[|s.bits|]) else s.(release := true)
  }

  /** One change of the wires. */
  function React(s: Slave, was: Line, now: Line): (s': Slave)
    requires WellFormed(s)
    ensures WellFormed(s') && |s'.mem| == |s.mem|
  {
    if IsStart(was, now) then s.(mode := Address, bits := [], release := true, lag := 0)
    else if IsStop(was, now) then s.(mode := Idle, bits := [], release := true, lag := 0)
    else if IsRise(was, now) && |s.bits| < 9 && s.mode != Idle then s.(bits := s.bits + [now.sda], lag := 0)
    else if IsFall(was, now) then
      if |s.bits| == 9 then
        FromBitsBound(s.bits[..8]);
        Completed(s, FromBits(s.bits[..8]), !s.bits[8])
      else if |s.bits| == 8 && s.mode != Send then
        FromBitsBound(s.bits);
        Decided(s, FromBits(s.bits))
      else Sending(s)
    else s
  }

  /** The master looks at SDA while the clock is low. */
  function Look(s: Slave): (s': Slave)
    ensures WellFormed(s) ==> WellFormed(s')
  {
    if s.lag == 0 then s else s.(lag := s.lag - 1, release := s.lag != 1)
  }

  // ---------------------------------------------------------------- the bus

  /** The master's registers, the chip, what has been on the wires, and what that says. */
  datatype Bus = Bus(scl: bool, sda: bool, out: bool, slave: Slave, seen: Line, ear: Ear, wave: seq<Line>)

  function SdaLevel(b: Bus): bool { (b.out ==> b.sda) && b.slave.release }

  /** The decoder state and the last line are those of the waveform. */
  ghost predicate Consistent(b: Bus) {
    WellFormed(b.slave) && b.ear == Decode(b.wave) && b.seen == LastLine(b.wave)
  }

  /** The wires as they are now go on record, and the chip reacts. */
  function Recorded(b: Bus): (b': Bus)
    requires WellFormed(b.slave)
    ensures WellFormed(b'.slave) && |b'.slave.mem| == |b.slave.mem|
  {
    var now := Line(b.scl, SdaLevel(b));
    b.(slave := React(b.slave, b.seen, now), seen := now, ear := Hear(b.ear, b.seen, now), wave := b.wave + [now])
  }

  /** The master has changed a register: once for that, once for what the chip then does to SDA. */
  function Settled(b: Bus): (b': Bus)
    requires WellFormed(b.slave)
    ensures WellFormed(b'.slave) && |b'.slave.mem| == |b.slave.mem|
  {
    Recorded(Recorded(b))
  }

  lemma RecordedConsistent(b: Bus)
    requires Consistent(b)
    ensures Consistent(Recorded(b))
  {
    var w := b.wave + [Line(b.scl, SdaLevel(b))];
    assert w[..|w| - 1] == b.wave;
  }

  lemma SettledConsistent(b: Bus)
    requires Consistent(b)
    ensures Consistent(Settled(b))
  {
    RecordedConsistent(b);
    RecordedConsistent(Recorded(b));
  }

  function SclTo(b: Bus, level: bool): Bus
    requires WellFormed(b.slave)
  {
    Settled(b.(scl := level))
  }

  /** The clock is low, and both listeners have heard the same first n bits of a byte. */
  predicate Low(b: Bus, n: nat) {
    && WellFormed(b.slave) && n <= 8
    && !b.scl && b.seen == Line(false, SdaLevel(b))
    && b.ear.framed && b.ear.bits == b.slave.bits && |b.ear.bits| == n
    && b.slave.mode != Idle
  }

  /** Both wires are high, and the chip has let go. */
  predicate AtRest(b: Bus) {
    && WellFormed(b.slave) && b.scl && b.sda && b.out && b.slave.release
    && b.seen == IDLE_LINE
  }

  /** While the clock is low, only the level of SDA can change, and nobody takes it for anything. */
  lemma LowChange(b: Bus, b': Bus, n: nat)
    requires Low(b, n) && b' == b.(sda := b'.sda, out := b'.out)
    ensures Low(Settled(b'), n)
    ensures Settled(b').slave == b.slave && Settled(b').ear == b.ear
    ensures Settled(b').sda == b'.sda && Settled(b').out == b'.out
  {
  }

  /** A chip that pulls SDA because it was looked at is not taken for anything either. */
  lemma LookSettles(b: Bus)
    requires Low(b, 8)
    ensures var c := Settled(b.(slave := Look(b.slave)));
            Low(c, 8) && c.slave == Look(b.slave) && c.ear == b.ear && c.sda == b.sda && c.out == b.out
  {
  }

  lemma Rise(b: Bus, n: nat)
    requires Low(b, n)
    ensures var h, level := SclTo(b, true), SdaLevel(b);
            && h.slave == b.slave.(bits := b.slave.bits + [level], lag := 0)
            && h.scl && h.sda == b.sda && h.out == b.out && h.seen == Line(true, level) && SdaLevel(h) == level
            && h.ear.framed
            && (n < 8 ==> h.ear == b.ear.(bits := b.ear.bits + [level]))
            && (n == 8 ==> FromBits(b.ear.bits) < 256
                           && h.ear.items == b.ear.items + [Byte(FromBits(b.ear.bits), !level)] && h.ear.bits == [])
  {
    FromBitsBound(b.ear.bits);
    assert n == 8 ==> b.ear.bits[..8] == b.ear.bits;
    var h := b.(scl := true);
    assert Recorded(h).slave == b.slave.(bits := b.slave.bits + [SdaLevel(b)], lag := 0);
  }

  /** One clock pulse for one of the first eight bits. */
  lemma ClockBit(b: Bus, n: nat)
    requires Low(b, n) && n < 8
    ensures var c, bits := SclTo(SclTo(b, true), false), b.slave.bits + [SdaLevel(b)];
            && Low(c, n + 1) && c.sda == b.sda && c.out == b.out
            && c.ear == b.ear.(bits := bits)
            && var s := b.slave.(bits := bits, lag := 0);
               FromBits(bits) < 256
               && c.slave == if n == 7 && s.mode != Send then Decided(s, FromBits(bits)) else Sending(s)
  {
    Rise(b, n);
    FromBitsBound(b.slave.bits + [SdaLevel(b)]);
    var h := SclTo(b, true).(scl := false);
    assert SdaLevel(h) == SdaLevel(b);
    var r := Recorded(h);
    assert r.ear == h.ear;
    assert Recorded(r).slave == r.slave && Recorded(r).ear == r.ear;
  }

  /** The clock pulse for the acknowledge. */
  lemma ClockAck(b: Bus)
    requires Low(b, 8)
    ensures var c := SclTo(SclTo(b, true), false);
            && Low(c, 0) && c.sda == b.sda && c.out == b.out
            && FromBits(b.slave.bits) < 256
            && c.ear.items == b.ear.items + [Byte(FromBits(b.slave.bits), !SdaLevel(b))]
            && c.slave == Completed(b.slave, FromBits(b.slave.bits), !SdaLevel(b))
  {
    Rise(b, 8);
    FromBitsBound(b.slave.bits);
    var h := SclTo(b, true).(scl := false);
    assert h.slave.bits[..8] == b.slave.bits && |h.slave.bits| == 9;
    var r := Recorded(h);
    assert r.slave == Completed(h.slave, FromBits(b.slave.bits), !SdaLevel(b));
    assert Recorded(r).slave == r.slave && Recorded(r).ear == r.ear;
  }

  // ---------------------------------------------------------------- start and stop

  function Started(s: Slave): Slave { s.(mode := Address, bits := [], release := true, lag := 0) }

  function Stopped(s: Slave): Slave { s.(mode := Idle, bits := [], release := true, lag := 0) }

  /** From a free bus, or between two bytes, pulling SDA low while the clock is high. */
  function StartSequence(b: Bus): (b': Bus)
    requires WellFormed(b.slave)
    ensures WellFormed(b'.slave)
  {
    var b1 := Settled(b.(out := true));
    var b2 := Settled(b1.(sda := true));
    var b3 := SclTo(b2, true);
    var b4 := Settled(b3.(sda := false));
    SclTo(b4, false)
  }

  function StopSequence(b: Bus): (b': Bus)
    requires WellFormed(b.slave)
    ensures WellFormed(b'.slave)
  {
    var b1 := Settled(b.(out := true));
    var b2 := Settled(b1.(sda := false));
    var b3 := SclTo(b2, true);
    Settled(b3.(sda := true))
  }

  /** The master takes SDA over, gives its answer to a byte, and leaves SDA low. */
  function AnswerSequence(b: Bus, ack: bool): (b': Bus)
    requires WellFormed(b.slave)
    ensures WellFormed(b'.slave)
  {
    var b1 := SclTo(b, false);
    var b2 := Settled(b1.(out := true));
    var b3 := Settled(b2.(sda := !ack));
    var b4 := SclTo(SclTo(b3, true), false);
    Settled(b4.(sda := false))
  }

  lemma AnswerFromLow(b: Bus, ack: bool)
    requires Low(b, 8) && b.slave.release
    ensures FromBits(b.slave.bits) < 256
    ensures var c, data := AnswerSequence(b, ack), FromBits(b.slave.bits);
            && Low(c, 0) && c.slave == Completed(b.slave, data, ack)
            && c.ear.items == b.ear.items + [Byte(data, ack)]
  {
    LowChange(b, b.(scl := false), 8);
    var b1 := SclTo(b, false);
    LowChange(b1, b1.(out := true), 8);
    var b2 := Settled(b1.(out := true));
    LowChange(b2, b2.(sda := !ack), 8);
    var b3 := Settled(b2.(sda := !ack));
    ClockAck(b3);
    var b4 := SclTo(SclTo(b3, true), false);
    LowChange(b4, b4.(sda := false), 0);
  }

  /** With the clock high and SDA high, the master pulls SDA low, then the clock. */
  lemma PullsStart(b: Bus)
    requires WellFormed(b.slave) && b.scl && b.sda && b.out && b.slave.release && b.seen == IDLE_LINE
    ensures var c := SclTo(Settled(b.(sda := false)), false);
            Low(c, 0) && c.slave == Started(b.slave) && c.ear.items == b.ear.items + [Start]
  {
    var b4 := Settled(b.(sda := false));
    assert Recorded(b.(sda := false)).slave == Started(b.slave);
    assert b4.slave == Started(b.slave) && b4.ear == Ear(true, [], b.ear.items + [Start]);
    assert Recorded(b4.(scl := false)).slave == b4.slave;
  }

  lemma StartFromLow(b: Bus)
    requires Low(b, 0) && b.slave.release
    ensures var c := StartSequence(b);
            Low(c, 0) && c.slave == Started(b.slave) && c.ear.items == b.ear.items + [Start]
  {
    LowChange(b, b.(out := true), 0);
    var b1 := Settled(b.(out := true));
    LowChange(b1, b1.(sda := true), 0);
    var b2 := Settled(b1.(sda := true));
    Rise(b2, 0);
    PullsStart(SclTo(b2, true));
    assert Started(SclTo(b2, true).slave) == Started(b.slave);
  }

  lemma StartAtRest(b: Bus)
    requires AtRest(b)
    ensures var c := StartSequence(b);
            Low(c, 0) && c.slave == Started(b.slave) && c.ear.items == b.ear.items + [Start]
  {
    var b1 := Settled(b.(out := true));
    assert Recorded(b).slave == b.slave && Recorded(b).ear == b.ear && Recorded(b).seen == IDLE_LINE;
    assert b1.slave == b.slave && b1.ear == b.ear && AtRest(b1);
    var b2 := Settled(b1.(sda := true));
    assert b2.slave == b.slave && b2.ear == b.ear && AtRest(b2);
    var b3 := SclTo(b2, true);
    assert b3.slave == b.slave && b3.ear == b.ear && AtRest(b3);
    PullsStart(b3);
  }

  lemma StopFromLow(b: Bus)
    requires Low(b, 0) && b.slave.release
    ensures var c := StopSequence(b);
            AtRest(c) && c.slave == Stopped(b.slave) && c.ear.items == b.ear.items + [Stop]
  {
    LowChange(b, b.(out := true), 0);
    var b1 := Settled(b.(out := true));
    LowChange(b1, b1.(sda := false), 0);
    var b2 := Settled(b1.(sda := false));
    Rise(b2, 0);
    var b3 := SclTo(b2, true);
    var r := Recorded(b3.(sda := true));
    assert r.slave == Stopped(b.slave) && r.ear.items == b.ear.items + [Stop];
    assert Recorded(r).slave == r.slave && Recorded(r).ear == r.ear;
  }

  // ---------------------------------------------------------------- bytes, as the chip takes them

  /** How often the master looks for an acknowledge at most: the source counts to a million and tests first. */
  const LOOKS := 1_000_001

  /** The chip acknowledges the byte, and soon enough for the master to see it. */
  predicate WillAck(s: Slave, data: byte) {
    Willing(s, data) && NextAck(s).AckAfter? && NextAck(s).looks <= LOOKS
  }

  /** The chip after a byte from the master. */
  function Received(s: Slave, data: byte): (s': Slave)
    requires s.mem != [] && s.ptr < |s.mem|
    ensures |s'.mem| == |s.mem| && s'.ptr < |s'.mem|
  {
    Completed(if Willing(s, data) then s.(acks := LaterAcks(s)) else s, data, WillAck(s, data))
  }

  /** The chip is in the middle of a transfer and between two bytes; if it sends, its first bit is on SDA. */
  predicate Attentive(s: Slave) {
    WellFormed(s) && s.bits == [] && s.lag == 0 && s.mode != Idle && s.release == Shown(s, 0)
  }

  /** The level the chip leaves SDA at for bit i: only a chip that sends pulls it low. */
  predicate Shown(s: Slave, i: nat)
    requires s.mem != [] && s.ptr < |s.mem|
  {
    s.mode == Send && i < 8 ==> ToBits(s.mem[s.ptr])[i]
  }

  /** The bits that are on the wire when the master puts out a byte. */
  function HeardBits(s: Slave, data: byte): (bits: seq<bool>)
    requires s.mem != [] && s.ptr < |s.mem|
    ensures |bits| == 8
  {
    seq(8, i requires 0 <= i < 8 => ToBits(data)[i] && Shown(s, i))
  }

  function Heard(s: Slave, data: byte): byte
    requires s.mem != [] && s.ptr < |s.mem|
  {
    FromBitsBound(HeardBits(s, data));
    FromBits(HeardBits(s, data))
  }

  /** A chip that does not send leaves the byte as it is. */
  lemma HeardAsSent(s: Slave, data: byte)
    requires s.mem != [] && s.ptr < |s.mem| && s.mode != Send
    ensures HeardBits(s, data) == ToBits(data) && Heard(s, data) == data
  {
    assert HeardBits(s, data) == ToBits(data);
    BitsRoundTrip(data);
  }

  /** The master has clocked out the first i bits of a byte to a chip that was "s" before. */
  ghost predicate BitsOut(b: Bus, s: Slave, data: byte, i: nat)
    requires i <= 8 && s.mem != [] && s.ptr < |s.mem|
  {
    var bits := HeardBits(s, data);
    && Low(b, i) && b.out && b.ear.bits == bits[..i]
    && b.slave == if i == 8 then Decided(s.(bits := bits, release := true), Heard(s, data))
                  else s.(bits := bits[..i], release := Shown(s, i))
  }

  lemma BitsOutNext(b: Bus, c: Bus, s: Slave, data: byte, i: nat)
    requires i < 8 && WellFormed(s) && BitsOut(b, s, data, i) && s.lag == 0
    requires Low(c, i + 1) && c.out
    requires var heard := ToBits(data)[i] && b.slave.release;
             && c.ear.bits == b.ear.bits + [heard]
             && var r := b.slave.(bits := b.slave.bits + [heard], lag := 0);
                FromBits(r.bits) < 256
                && c.slave == if i == 7 && r.mode != Send then Decided(r, FromBits(r.bits)) else Sending(r)
    ensures BitsOut(c, s, data, i + 1)
  {
    var bits := HeardBits(s, data);
    FirstBits(bits, i);
    assert bits[i] == (ToBits(data)[i] && Shown(s, i)) && b.slave.release == Shown(s, i);
    if i == 7 {
      assert b.slave.bits + [bits[7]] == bits;
    }
  }

  lemma FirstBits(bits: seq<bool>, i: nat)
    requires i < |bits| == 8
    ensures bits[..i + 1] == bits[..i] + [bits[i]] && bits[..8] == bits
  {
  }

  /** A chip that has made up its mind, and that the master has waited for. */
  ghost predicate WaitedFor(before: Slave, after: Slave) {
    && after == before.(lag := after.lag, release := after.release)
    && after.release == if before.lag == 0 then before.release else before.lag > LOOKS
  }

  /** The level of SDA then tells whether the byte is acknowledged, and the chip goes on accordingly. */
  lemma AckSeen(s: Slave, data: byte, w: Slave)
    requires Attentive(s)
    requires WaitedFor(Decided(s.(bits := HeardBits(s, data), release := true), Heard(s, data)), w)
    ensures FromBits(w.bits) == Heard(s, data) && w.release == !WillAck(s, data)
    ensures w.mem == s.mem && w.ptr == s.ptr && Completed(w, Heard(s, data), !w.release) == Received(s, data)
  {
    var d := s.(bits := HeardBits(s, data), release := true);
    if s.mode != Send {
      HeardAsSent(s, data);
    }
    AckDecided(s, d, Heard(s, data), w);
    DecidedCompletes(s, data, w);
  }

  lemma AckDecided(s: Slave, d: Slave, data: byte, w: Slave)
    requires s.lag == 0 && d == s.(bits := d.bits, release := true) && WaitedFor(Decided(d, data), w)
    ensures w.bits == d.bits && w.mem == s.mem && w.ptr == s.ptr && w.release == !WillAck(s, data)
    ensures w == (if Willing(s, data) then s.(acks := LaterAcks(s)) else s)
                 .(bits := d.bits, lag := w.lag, release := w.release)
  {
  }

  lemma DecidedCompletes(s: Slave, data: byte, w: Slave)
    requires s.mem != [] && s.ptr < |s.mem| && (s.mode == Send || Heard(s, data) == data)
    requires w == (if Willing(s, Heard(s, data)) then s.(acks := LaterAcks(s)) else s)
                    .(bits := w.bits, lag := w.lag, release := w.release)
    requires w.release == !WillAck(s, Heard(s, data))
    ensures WillAck(s, Heard(s, data)) == WillAck(s, data)
    ensures w.mem == s.mem && w.ptr == s.ptr && Completed(w, Heard(s, data), !w.release) == Received(s, data)
  {
  }

  /** The chip after the master has sent bytes up to the first one that was not acknowledged. */
  function ReceivedAll(s: Slave, bytes: seq<byte>): (s': Slave)
    requires s.mem != [] && s.ptr < |s.mem|
    ensures |s'.mem| == |s.mem| && s'.ptr < |s'.mem|
    decreases |bytes|
  {
    if bytes == [] then s
    else if WillAck(s, bytes[0]) then ReceivedAll(Received(s, bytes[0]), bytes[1..])
    else Received(s, bytes[0])
  }

  predicate AllAcked(s: Slave, bytes: seq<byte>)
    requires s.mem != [] && s.ptr < |s.mem|
    decreases |bytes|
  {
    bytes == [] || (WillAck(s, bytes[0]) && AllAcked(Received(s, bytes[0]), bytes[1..]))
  }

  /** What sending the bytes says on the bus. */
  function BytesSaid(s: Slave, bytes: seq<byte>): seq<Item>
    requires s.mem != [] && s.ptr < |s.mem|
    decreases |bytes|
  {
    if bytes == [] then []
    else
      [Byte(Heard(s, bytes[0]), WillAck(s, bytes[0]))]
      + if WillAck(s, bytes[0]) then BytesSaid(Received(s, bytes[0]), bytes[1..]) else []
  }

  lemma {:induction false} OnlyBytesSaid(s: Slave, bytes: seq<byte>)
    requires s.mem != [] && s.ptr < |s.mem|
    ensures forall i :: 0 <= i < |BytesSaid(s, bytes)| ==> BytesSaid(s, bytes)[i].Byte?
    decreases |bytes|
  {
    if bytes != [] && WillAck(s, bytes[0]) {
      OnlyBytesSaid(Received(s, bytes[0]), bytes[1..]);
    }
  }

  /**
   It says the bytes in order, up to the first one that is not acknowledged: all before the last
   said are acknowledged, and the last one is exactly when all bytes were sent and acknowledged.  They
   are the bytes themselves if the chip is not made to send.
   */
  lemma {:induction false} BytesSaidMeans(s: Slave, bytes: seq<byte>)
    requires s.mem != [] && s.ptr < |s.mem|
    ensures var said := BytesSaid(s, bytes);
            && |said| <= |bytes| && (bytes != [] ==> said != [])
            && (forall i :: 0 <= i < |said| ==> said[i].Byte?)
            && (s.mode != Send && EvenAddress(s, bytes) ==> forall i :: 0 <= i < |said| ==> said[i].data == bytes[i])
            && (forall i :: 0 <= i < |said| - 1 ==> said[i].acked)
            && (AllAcked(s, bytes) <==> |said| == |bytes| && (said != [] ==> said[|said| - 1].acked))
    decreases |bytes|
  {
    if bytes != [] {
      var next := Received(s, bytes[0]);
      BytesSaidMeans(next, bytes[1..]);
      var said, more := BytesSaid(s, bytes), BytesSaid(next, bytes[1..]);
      if s.mode != Send {
        HeardAsSent(s, bytes[0]);
        ModeAfter(s, bytes[0]);
      }
      if WillAck(s, bytes[0]) {
        assert said == [Byte(Heard(s, bytes[0]), true)] + more;
        forall i | 0 < i < |said|
          ensures said[i] == more[i - 1] && bytes[i] == bytes[1..][i - 1]
        {
        }
      }
    }
  }

  /** Only an acknowledged address with the read bit set makes the chip send. */
  lemma ModeAfter(s: Slave, data: byte)
    requires s.mem != [] && s.ptr < |s.mem|
    ensures Received(s, data).mode != Address || s.mode == Address
    ensures Received(s, data).mode == Send <==> s.mode == Address && WillAck(s, data) && data % 2 == 1
    ensures s.mode == Address ==> Received(s, data).mode != Address
  {
  }

  /** The chip is taking bytes, and not in the middle of one. */
  predicate Listening(s: Slave) {
    WellFormed(s) && s.bits == [] && s.release && s.lag == 0 && s.mode != Send && s.mode != Idle
  }

  /** A byte that is to be taken for a device address has its read bit clear. */
  predicate EvenAddress(s: Slave, bytes: seq<byte>) {
    s.mode == Address && bytes != [] ==> bytes[0] % 2 == 0
  }

  lemma StillAttentive(s: Slave, data: byte)
    requires Attentive(s)
    ensures Attentive(Received(s, data)) && Received(s, data).mode != Address
  {
  }

  /** After more than one byte the chip does not send. */
  lemma {:induction false} NotSending(s: Slave, bytes: seq<byte>)
    requires Attentive(s) && bytes != []
    ensures Attentive(ReceivedAll(s, bytes))
    ensures ReceivedAll(s, bytes).mode == Send ==> |bytes| == 1 && s.mode == Address && bytes[0] % 2 == 1
    decreases |bytes|
  {
    var next := Received(s, bytes[0]);
    StillAttentive(s, bytes[0]);
    ModeAfter(s, bytes[0]);
    if WillAck(s, bytes[0]) && |bytes| > 1 {
      NotSending(next, bytes[1..]);
    }
  }

  /**
   A device address with the read bit set cannot be followed by anything: the chip sends while the
   master puts out the second byte, and nobody acknowledges it.
   */
  lemma OddAddressFails(s: Slave, bytes: seq<byte>)
    requires Attentive(s) && s.mode == Address && |bytes| > 1 && bytes[0] % 2 == 1
    ensures !AllAcked(s, bytes)
    ensures BytesSaid(s, bytes)
         == if WillAck(s, bytes[0]) then
              [Byte(bytes[0], true), Byte(Heard(Received(s, bytes[0]), bytes[1]), false)]
            else
              [Byte(bytes[0], false)]
  {
    HeardAsSent(s, bytes[0]);
    ModeAfter(s, bytes[0]);
    if WillAck(s, bytes[0]) {
      var next := Received(s, bytes[0]);
      assert bytes[1..][0] == bytes[1] && !WillAck(next, bytes[1]);
      assert BytesSaid(next, bytes[1..]) == [Byte(Heard(next, bytes[1]), false)];
    }
  }

  /** In the middle of sending bytes to a chip that was "s": what is still to go, and what was said. */
  ghost predicate SentSoFar(s: Slave, bytes: seq<byte>, now: Slave, rest: seq<byte>, said: seq<Item>, ok: bool) {
    && Attentive(s) && Attentive(now)
    && |rest| <= |bytes| && (!ok ==> |rest| < |bytes|)
    && if ok then
         && AllAcked(s, bytes) == AllAcked(now, rest)
         && ReceivedAll(s, bytes) == ReceivedAll(now, rest)
         && BytesSaid(s, bytes) == said + BytesSaid(now, rest)
       else
         !AllAcked(s, bytes) && now == ReceivedAll(s, bytes) && said == BytesSaid(s, bytes)
  }

  lemma SentNext(s: Slave, bytes: seq<byte>, now: Slave, rest: seq<byte>, said: seq<Item>)
    requires SentSoFar(s, bytes, now, rest, said, true) && rest != []
    ensures var ack := WillAck(now, rest[0]);
            SentSoFar(s, bytes, Received(now, rest[0]), rest[1..], said + [Byte(Heard(now, rest[0]), ack)], ack)
  {
    StillAttentive(now, rest[0]);
    SaidNext(now, rest, said);
  }

  lemma SaidNext(now: Slave, rest: seq<byte>, said: seq<Item>)
    requires now.mem != [] && now.ptr < |now.mem| && rest != []
    ensures said + BytesSaid(now, rest)
         == said + [Byte(Heard(now, rest[0]), WillAck(now, rest[0]))]
            + if WillAck(now, rest[0]) then BytesSaid(Received(now, rest[0]), rest[1..]) else []
  {
    FirstSaid(now, rest);
    InThree(said, [Byte(Heard(now, rest[0]), WillAck(now, rest[0]))],
            if WillAck(now, rest[0]) then BytesSaid(Received(now, rest[0]), rest[1..]) else []);
  }

  lemma FirstSaid(now: Slave, rest: seq<byte>)
    requires now.mem != [] && now.ptr < |now.mem| && rest != []
    ensures BytesSaid(now, rest)
         == [Byte(Heard(now, rest[0]), WillAck(now, rest[0]))]
            + if WillAck(now, rest[0]) then BytesSaid(Received(now, rest[0]), rest[1..]) else []
  {
  }

  lemma InThree(x: seq<Item>, y: seq<Item>, z: seq<Item>)
    ensures x + (y + z) == x + y + z
  {
  }

  // ---------------------------------------------------------------- bytes, as the chip sends them

  /** The chip has the first bit of the byte at its pointer on SDA. */
  predicate ReadyToSend(s: Slave) {
    && s.mem != [] && s.ptr < |s.mem| && s.mode == Send && s.bits == [] && s.lag == 0
    && s.release == ToBits(s.mem[s.ptr])[0]
  }

  /** The master has clocked in the first i bits from a chip that was "s" before. */
  ghost predicate BitsIn(b: Bus, s: Slave, i: nat)
    requires i <= 8 && s.mem != [] && s.ptr < |s.mem|
  {
    var bits := ToBits(s.mem[s.ptr]);
    && Low(b, i) && !b.out && b.ear.bits == bits[..i]
    && b.slave == s.(bits := bits[..i], release := i == 8 || bits[i])
  }

  lemma BitsInNext(b: Bus, s: Slave, i: nat)
    requires i < 8 && ReadyToSend(s) && BitsIn(b, s, i)
    ensures BitsIn(SclTo(SclTo(b, true), false), s, i + 1)
    ensures SclTo(SclTo(b, true), false).ear.items == b.ear.items
    ensures SdaLevel(b) == SdaLevel(SclTo(b, true)) == ToBits(s.mem[s.ptr])[i]
  {
    var bits := ToBits(s.mem[s.ptr]);
    assert bits[..i + 1] == bits[..i] + [bits[i]];
    Rise(b, i);
    ClockBit(b, i);
  }

  /** The answer to a byte that the master has clocked in. */
  lemma ByteAnswered(b: Bus, s: Slave, ack: bool)
    requires ReadyToSend(s) && BitsIn(b, s, 8)
    ensures var c := AnswerSequence(b, ack);
            && Low(c, 0) && c.slave == Completed(s, s.mem[s.ptr], ack)
            && c.ear.items == b.ear.items + [Byte(s.mem[s.ptr], ack)]
  {
    BitsRoundTrip(s.mem[s.ptr]);
    assert ToBits(s.mem[s.ptr])[..8] == ToBits(s.mem[s.ptr]);
    AnswerFromLow(b, ack);
    ByteForgotten(s, b.slave.bits, s.mem[s.ptr], ack);
  }

  /** What a whole byte makes of the chip does not depend on how it has been kept so far. */
  lemma ByteForgotten(s: Slave, bits: seq<bool>, data: byte, acked: bool)
    requires s.mem != [] && s.ptr < |s.mem|
    ensures Completed(s.(bits := bits, release := true), data, acked) == Completed(s, data, acked)
  {
  }

  /** What is heard when n bytes are read: all but the last are acknowledged. */
  function ReadItems(data: seq<byte>): seq<Item> {
    seq(|data|, i requires 0 <= i < |data| => Byte(data[i], i < |data| - 1))
  }

  /** The chip after n bytes were read from it, the last one not acknowledged. */
  function SentAll(s: Slave, n: nat): (s': Slave)
    requires s.mem != [] && s.ptr < |s.mem|
    ensures |s'.mem| == |s.mem| && s'.ptr < |s'.mem|
    decreases n
  {
    if n == 0 then s else SentAll(Completed(s, s.mem[s.ptr], n > 1), n - 1)
  }

  /** A stop condition appears exactly when the chip does not hold SDA low. */
  lemma StopHeard(b: Bus)
    requires Low(b, 0)
    ensures StopSequence(b).ear.items == b.ear.items + [Stop] <==> b.slave.release
  {
    if b.slave.release {
      StopFromLow(b);
    } else {
      StuckBus(b);
    }
  }

  /** If the chip does hold SDA low, nothing is heard, and the start condition of the next call is not heard either. */
  lemma StuckBus(b: Bus)
    requires Low(b, 0) && !b.slave.release
    ensures StopSequence(b).ear.items == b.ear.items
    ensures StartSequence(StopSequence(b)).ear.items == b.ear.items
  {
    LowChange(b, b.(out := true), 0);
    var b1 := Settled(b.(out := true));
    LowChange(b1, b1.(sda := false), 0);
    var b2 := Settled(b1.(sda := false));
    Rise(b2, 0);
    var b3 := SclTo(b2, true);
    StaysLow(b3, true);
    var b4 := Settled(b3.(sda := true));
    assert b4.(out := true) == b4.(sda := true) == b4.(scl := true) == b4;
    StaysLow(b4, true);
    var b5 := Settled(b4);
    StaysLow(b5, true);
    var b6 := Settled(b5);
    StaysLow(b6, true);
    var b7 := Settled(b6);
    StaysLow(b7, false);
    ClockFalls(Settled(b7.(sda := false)));
  }

  /** The clock is high and the chip holds SDA low, whatever the master does to it. */
  predicate HeldLow(b: Bus) {
    WellFormed(b.slave) && b.scl && !b.slave.release && b.out && b.seen == Line(true, false)
  }

  lemma StaysLow(b: Bus, level: bool)
    requires HeldLow(b)
    ensures var c := Settled(b.(sda := level)); c == b.(sda := level, wave := c.wave)
  {
  }

  lemma ClockFalls(b: Bus)
    requires HeldLow(b)
    ensures SclTo(b, false).ear.items == b.ear.items
  {
  }

  // ---------------------------------------------------------------- memory

  /** Memory after storing data from p on, wrapping at the end. */
  function Stored(mem: seq<byte>, p: nat, data: seq<byte>): (mem': seq<byte>)
    requires p < |mem|
    ensures |mem'| == |mem|
    decreases |data|
  {
    if data == [] then mem else Stored(mem[p := data[0]], Next(|mem|, p), data[1..])
  }

  /** What n bytes from p on hold. */
  function Loaded(mem: seq<byte>, p: nat, n: nat): (data: seq<byte>)
    requires p < |mem|
    ensures |data| == n
    decreases n
  {
    if n == 0 then [] else [mem[p]] + Loaded(mem, Next(|mem|, p), n - 1)
  }

  /** The cell k cells after p. */
  function Offset(size: nat, p: nat, k: nat): (q: nat)
    requires p < size && k < size
    ensures q < size
  {
    if p + k < size then p + k else p + k - size
  }

  lemma {:induction false} StoredAt(mem: seq<byte>, p: nat, data: seq<byte>, i: nat)
    requires p < |mem| && |data| <= |mem| && i < |data|
    ensures Stored(mem, p, data)[Offset(|mem|, p, i)] == data[i]
    decreases |data|
  {
    var mem', p' := mem[p := data[0]], Next(|mem|, p);
    if i == 0 {
      StoredElsewhere(mem', p', data[1..], |mem| - 1);
    } else {
      StoredAt(mem', p', data[1..], i - 1);
    }
  }

  /** A cell that is further from p than the data is long is not touched. */
  lemma {:induction false} StoredElsewhere(mem: seq<byte>, p: nat, data: seq<byte>, k: nat)
    requires p < |mem| && |data| <= k < |mem|
    ensures Stored(mem, p, data)[Offset(|mem|, p, k)] == mem[Offset(|mem|, p, k)]
    decreases |data|
  {
    if data != [] {
      StoredElsewhere(mem[p := data[0]], Next(|mem|, p), data[1..], k - 1);
    }
  }

  lemma {:induction false} LoadedAt(mem: seq<byte>, p: nat, n: nat, i: nat)
    requires p < |mem| && i < n && i < |mem|
    ensures Loaded(mem, p, n)[i] == mem[Offset(|mem|, p, i)]
    decreases n
  {
    if i > 0 {
      LoadedAt(mem, Next(|mem|, p), n - 1, i - 1);
    }
  }

  /** What was stored is what is loaded, as long as the data does not overrun itself. */
  lemma LoadAfterStore(mem: seq<byte>, p: nat, data: seq<byte>)
    requires p < |mem| && |data| <= |mem|
    ensures Loaded(Stored(mem, p, data), p, |data|) == data
  {
    forall i | 0 <= i < |data|
      ensures Loaded(Stored(mem, p, data), p, |data|)[i] == data[i]
    {
      StoredAt(mem, p, data, i);
      LoadedAt(Stored(mem, p, data), p, |data|, i);
    }
  }

  // ---------------------------------------------------------------- reading several bytes

  /** In the middle of reading n bytes from a chip that was "s": k are still to come. */
  ghost predicate ReadSoFar(s: Slave, n: nat, now: Slave, k: nat, got: seq<byte>) {
    && s.ptr < |s.mem| && now.ptr < |now.mem| && now.mem == s.mem
    && k <= n && |got| == n - k
    && Loaded(s.mem, s.ptr, n) == got + Loaded(now.mem, now.ptr, k)
    && SentAll(s, n) == SentAll(now, k)
    && (k > 0 ==> ReadyToSend(now))
    && (k == 0 && n > 0 ==> now.release && now.bits == [] && now.lag == 0 && now.mode == Ignore)
  }

  lemma ReadNext(s: Slave, n: nat, now: Slave, k: nat, got: seq<byte>)
    requires ReadSoFar(s, n, now, k, got) && k > 0
    ensures var data := now.mem[now.ptr];
            && ReadSoFar(s, n, Completed(now, data, k > 1), k - 1, got + [data])
            && Loaded(s.mem, s.ptr, n)[n - k] == data
  {
    var data := now.mem[now.ptr];
    var next := Completed(now, data, k > 1);
    assert next.ptr == Next(|now.mem|, now.ptr) && next.mem == now.mem;
    assert got + ([data] + Loaded(now.mem, next.ptr, k - 1)) == got + [data] + Loaded(now.mem, next.ptr, k - 1);
  }

  lemma ReadItemsNext(data: seq<byte>, i: nat)
    requires i < |data|
    ensures ReadItems(data)[..i + 1] == ReadItems(data)[..i] + [Byte(data[i], i < |data| - 1)]
  {
  }

  // ---------------------------------------------------------------- a prompt memory

  /** A chip that acknowledges everything at once: a memory with two or one address bytes. */
  predicate Prompt(s: Slave, device: byte) {
    s.acks == [] && s.device == device && device % 2 == 0
  }

  /** The bytes that select a device and an address in it. */
  function Head(device: byte, wide: bool, address: nat): seq<byte>
    requires address < 0x1_0000
  {
    [device] + (if wide then [address / 256] else []) + [address % 256]
  }

  /** The cell an address selects. */
  function CellOf(s: Slave, address: nat): (p: nat)
    requires s.mem != []
    ensures p < |s.mem|
  {
    (if s.wide then address else address % 256) % |s.mem|
  }

  lemma {:induction false} StoresAll(s: Slave, data: seq<byte>)
    requires Listening(s) && s.mode == Store && s.acks == []
    ensures AllAcked(s, data)
    ensures var r := ReceivedAll(s, data);
            Listening(r) && r.mode == Store && r.mem == Stored(s.mem, s.ptr, data)
            && r.acks == [] && r.device == s.device && r.wide == s.wide
    decreases |data|
  {
    if data != [] {
      StoresAll(Received(s, data[0]), data[1..]);
    }
  }

  /** Selecting an address puts the chip's pointer there, ready to store. */
  lemma SelectsAddress(s: Slave, device: byte, address: nat)
    requires Listening(s) && s.mode == Address && Prompt(s, device) && address < 0x1_0000
    ensures AllAcked(s, Head(device, s.wide, address))
    ensures var r := ReceivedAll(s, Head(device, s.wide, address));
            Listening(r) && r.mode == Store && r.mem == s.mem && r.ptr == CellOf(s, address)
            && Prompt(r, device) && r.wide == s.wide
  {
    var bytes := Head(device, s.wide, address);
    var s1 := Received(s, device);
    assert bytes[0] == device && WillAck(s, device);
    if s.wide {
      assert bytes[1..] == [address / 256, address % 256] && bytes[1..][1..] == [address % 256];
      var s2 := Received(s1, address / 256);
      assert s2.mode == AddressLow && s2.high == address / 256;
      ReceivedOne(s2, address % 256);
      assert s2.high * 256 + address % 256 == address;
    } else {
      assert bytes[1..] == [address % 256];
      ReceivedOne(s1, address % 256);
    }
  }

  lemma ReceivedOne(s: Slave, data: byte)
    requires s.mem != [] && s.ptr < |s.mem|
    ensures ReceivedAll(s, [data]) == Received(s, data) && (AllAcked(s, [data]) <==> WillAck(s, data))
  {
    assert [data][1..] == [];
  }

  lemma {:induction false} ReceivedAllSplit(s: Slave, a: seq<byte>, b: seq<byte>)
    requires s.mem != [] && s.ptr < |s.mem| && AllAcked(s, a)
    ensures ReceivedAll(s, a + b) == ReceivedAll(ReceivedAll(s, a), b)
    ensures AllAcked(s, a + b) <==> AllAcked(ReceivedAll(s, a), b)
    decreases |a|
  {
    if a == [] {
      assert a + b == b;
    } else {
      assert (a + b)[1..] == a[1..] + b;
      ReceivedAllSplit(Received(s, a[0]), a[1..], b);
    }
  }

  /** Writing data to a prompt memory stores it at the address. */
  lemma WriteStores(s: Slave, device: byte, address: nat, data: seq<byte>)
    requires Listening(s) && s.mode == Address && Prompt(s, device) && address < 0x1_0000
    ensures AllAcked(s, Head(device, s.wide, address) + data)
    ensures var r := ReceivedAll(s, Head(device, s.wide, address) + data);
            r.mem == Stored(s.mem, CellOf(s, address), data) && Prompt(r, device) && r.wide == s.wide && WellFormed(r)
  {
    SelectsAddress(s, device, address);
    var head := Head(device, s.wide, address);
    ReceivedAllSplit(s, head, data);
    StoresAll(ReceivedAll(s, head), data);
  }
}
