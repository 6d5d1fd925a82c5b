/**
 The bit-banged I2C master: it drives SCL and SDA through two parallel-port registers and turns SDA
 round by a direction register.
 */
module I2cMaster {
  import opened Arithmetic
  import opened I2cBus

  // ---------------------------------------------------------------- what a transfer does

  /**
   A write call: the waveform it adds says a start condition, the bytes up to the first one that is
   not acknowledged, and a stop condition; it succeeds exactly when all are acknowledged.
   */
  ghost predicate WriteDone(b: Bus, b': Bus, bytes: seq<byte>, ok: bool)
    requires WellFormed(b.slave)
  {
    var s := Started(b.slave);
    && AtRest(b') && ok == AllAcked(s, bytes) && b'.slave == Stopped(ReceivedAll(s, bytes))
    && b'.ear.items == b.ear.items + [Start] + BytesSaid(s, bytes) + [Stop]
  }

  /** The device address with the read bit set. */
  function ReadAddress(device: byte): (a: byte)
    ensures a % 2 == 1 && a - 1 == device - device % 2
  {
    device - device % 2 + 1
  }

  /** The chip once it has been turned round to send. */
  function Turned(s: Slave, head: seq<byte>): (r: Slave)
    requires s.mem != [] && s.ptr < |s.mem| && head != []
    ensures r.ptr < |r.mem|
  {
    Received(Started(ReceivedAll(s, head)), ReadAddress(head[0]))
  }

  /** All bytes of a read call that the chip is to acknowledge are acknowledged. */
  predicate ReadAcked(s: Slave, head: seq<byte>)
    requires s.mem != [] && s.ptr < |s.mem| && head != []
  {
    AllAcked(s, head) && WillAck(Started(ReceivedAll(s, head)), ReadAddress(head[0]))
  }

  /**
   What a read call says before the data: the bytes that select the address, up to the first one that
   is not acknowledged; then, if they all were, another start condition and the device address with the
   read bit.  With "restart" the start condition is made even if they were not.
   */
  ghost function SelectionSaid(s: Slave, head: seq<byte>, restart: bool): seq<Item>
    requires s.mem != [] && s.ptr < |s.mem| && head != []
  {
    [Start] + BytesSaid(s, head)
    + if AllAcked(s, head) then [Start, Byte(ReadAddress(head[0]), ReadAcked(s, head))]
      else if restart then [Start] else []
  }

  /**
   A read call: it succeeds exactly when all of the selection is acknowledged, and then returns what
   the chip holds from its pointer on, acknowledging all bytes but the last.
   */
  ghost predicate ReadDone(b: Bus, b': Bus, head: seq<byte>, restart: bool, data: seq<byte>, ok: bool)
    requires WellFormed(b.slave) && head != []
  {
    var s := Started(b.slave);
    && ok == ReadAcked(s, head)
    && if ok && data == [] then EmptyReadDone(b, b', head, restart)
       else
         && AtRest(b')
         && b'.ear.items == b.ear.items + SelectionSaid(s, head, restart)
                            + (if ok then ReadItems(data) else []) + [Stop]
         && (ok ==>
               && b'.slave.mem == Turned(s, head).mem
               && data == Loaded(Turned(s, head).mem, Turned(s, head).ptr, |data|))
  }

  /**
   A read call of no bytes: the chip has put out the first bit it would send, and nothing clocks it on.
   If that bit is high, the call ends well.  If it is low, no stop condition is heard, and neither is
   the start condition of the next call.
   */
  ghost predicate EmptyReadDone(b: Bus, b': Bus, head: seq<byte>, restart: bool)
    requires WellFormed(b.slave) && head != []
  {
    var t := Turned(Started(b.slave), head);
    var said := b.ear.items + SelectionSaid(Started(b.slave), head, restart);
    && WellFormed(b'.slave)
    && if ToBits(t.mem[t.ptr])[0] then AtRest(b') && b'.slave == Stopped(t) && b'.ear.items == said + [Stop]
       else b'.ear.items == said && StartSequence(b').ear.items == said
  }

  /** What the selection says, in the order in which it is said. */
  lemma SelectionSplit(before: seq<Item>, s: Slave, head: seq<byte>, restart: bool)
    requires s.mem != [] && s.ptr < |s.mem| && head != []
    ensures before + SelectionSaid(s, head, restart)
         == before + [Start] + BytesSaid(s, head) + SecondStart(s, head, restart)
            + if AllAcked(s, head) then [Byte(ReadAddress(head[0]), ReadAcked(s, head))] else []
  {
    JoinItems(before, BytesSaid(s, head), [], SelectionSaid(s, head, restart));
    JoinItems(before, BytesSaid(s, head), [Byte(ReadAddress(head[0]), ReadAcked(s, head))],
              SelectionSaid(s, head, restart));
  }

  function SecondStart(s: Slave, head: seq<byte>, restart: bool): seq<Item>
    requires s.mem != [] && s.ptr < |s.mem|
  {
    if AllAcked(s, head) || restart then [Start] else []
  }

  lemma JoinItems(before: seq<Item>, said: seq<Item>, last: seq<Item>, all: seq<Item>)
    ensures all == [Start] + said + ([Start] + last) ==> before + all == before + [Start] + said + [Start] + last
    ensures all == [Start] + said ==> before + all == before + [Start] + said + [] + []
    ensures [Start] + last == if last == [] then [Start] else [Start] + last
  {
  }

  // ---------------------------------------------------------------- the port

  /** What was said since, in start and stop conditions and in changes of SDA with the clock high. */
  lemma EdgesSaid(b: Bus, b': Bus, said: seq<Item>)
    requires Consistent(b) && Consistent(b') && b'.ear.items == b.ear.items + said
    ensures Edges(b'.wave) == Edges(b.wave) + Conditions(said)
  {
    EdgesAreHeard(b.wave);
    EdgesAreHeard(b'.wave);
    ConditionsSplit(b.ear.items, said);
  }

  lemma StoppedEdges(b: Bus, b': Bus, said: seq<Item>, bytes: seq<Item>)
    requires Consistent(b) && Consistent(b') && b'.ear.items == b.ear.items + said + bytes + [Stop]
    requires forall i :: 0 <= i < |bytes| ==> bytes[i].Byte?
    ensures Edges(b'.wave) == Edges(b.wave) + Conditions(said) + 1
  {
    assert b.ear.items + said + bytes + [Stop] == b.ear.items + (said + bytes + [Stop]);
    EdgesSaid(b, b', said + bytes + [Stop]);
    ConditionsNext(said + bytes, Stop);
    ConditionsSplit(said, bytes);
    BytesAreNoConditions(bytes);
  }

  /** A write call changes SDA with the clock high twice, for its start and its stop condition. */
  lemma WriteEdges(b: Bus, b': Bus, bytes: seq<byte>, ok: bool)
    requires Consistent(b) && Consistent(b') && WriteDone(b, b', bytes, ok)
    ensures Edges(b'.wave) == Edges(b.wave) + 2
  {
    OnlyBytesSaid(Started(b.slave), bytes);
    StoppedEdges(b, b', [Start], BytesSaid(Started(b.slave), bytes));
    ConditionsNext([], Start);
  }

  /** The start and stop conditions of a read call: a second start if it restarts, and no stop if it is stuck. */
  ghost function ReadConditions(b: Bus, head: seq<byte>, restart: bool, n: nat, ok: bool): nat
    requires WellFormed(b.slave) && head != []
  {
    var t := Turned(Started(b.slave), head);
    1 + (if AllAcked(Started(b.slave), head) || restart then 1 else 0)
    + if ok && n == 0 && !ToBits(t.mem[t.ptr])[0] then 0 else 1
  }

  /** A read call changes SDA with the clock high for these, and for nothing else. */
  lemma ReadEdges(b: Bus, b': Bus, head: seq<byte>, restart: bool, data: seq<byte>, ok: bool)
    requires Consistent(b) && Consistent(b') && head != [] && ReadDone(b, b', head, restart, data, ok)
    ensures Edges(b'.wave) == Edges(b.wave) + ReadConditions(b, head, restart, |data|, ok)
  {
    var s, t := Started(b.slave), Turned(Started(b.slave), head);
    SelectionConditions(s, head, restart);
    if ok && data == [] {
      EmptyReadEdges(b, b', head, restart);
    } else {
      StoppedEdges(b, b', SelectionSaid(s, head, restart), if ok then ReadItems(data) else []);
    }
  }

  lemma EmptyReadEdges(b: Bus, b': Bus, head: seq<byte>, restart: bool)
    requires Consistent(b) && Consistent(b') && head != [] && EmptyReadDone(b, b', head, restart)
    ensures var s, t := Started(b.slave), Turned(Started(b.slave), head);
            Edges(b'.wave) == Edges(b.wave) + Conditions(SelectionSaid(s, head, restart))
                              + if ToBits(t.mem[t.ptr])[0] then 1 else 0
  {
    var s, t := Started(b.slave), Turned(Started(b.slave), head);
    var said := SelectionSaid(s, head, restart);
    if ToBits(t.mem[t.ptr])[0] {
      assert b'.ear.items == b.ear.items + said + [] + [Stop];
      StoppedEdges(b, b', said, []);
    } else {
      EdgesSaid(b, b', said);
    }
  }

  lemma SelectionConditions(s: Slave, head: seq<byte>, restart: bool)
    requires s.mem != [] && s.ptr < |s.mem| && head != []
    ensures Conditions(SelectionSaid(s, head, restart)) == if AllAcked(s, head) || restart then 2 else 1
  {
    var bytes := BytesSaid(s, head);
    var turn := if AllAcked(s, head) then [Start, Byte(ReadAddress(head[0]), ReadAcked(s, head))]
                else if restart then [Start] else [];
    OnlyBytesSaid(s, head);
    BytesAreNoConditions(bytes);
    ConditionsNext([], Start);
    ConditionsNext([Start], Byte(ReadAddress(head[0]), ReadAcked(s, head)));
    ConditionsSplit([Start], bytes);
    ConditionsSplit([Start] + bytes, turn);
  }

  class I2cPort {
    var bus: Bus

    constructor (chip: Slave)
      requires WellFormed(chip) && chip.mode == Idle && chip.release
      ensures Valid() && AtRest(bus) && bus.slave == chip && bus.ear.items == []
    {
      bus := Bus(true, true, true, chip, IDLE_LINE, SILENCE, []);
    }

    ghost predicate Valid()
      reads this
    {
      Consistent(bus)
    }

    // ------------------------------------------------------------ registers

    method SdaDirIn()
      requires Valid()
      modifies this
      ensures Valid() && bus == Settled(old(bus).(out := false))
    {
      SettledConsistent(bus.(out := false));
      bus := Settled(bus.(out := false));
    }

    method SdaDirOut()
      requires Valid()
      modifies this
      ensures Valid() && bus == Settled(old(bus).(out := true))
    {
      SettledConsistent(bus.(out := true));
      bus := Settled(bus.(out := true));
    }

    method Sda(level: bool)
      requires Valid()
      modifies this
      ensures Valid() && bus == Settled(old(bus).(sda := level))
    {
      SettledConsistent(bus.(sda := level));
      bus := Settled(bus.(sda := level));
    }

    method Scl(level: bool)
      requires Valid()
      modifies this
      ensures Valid() && bus == SclTo(old(bus), level)
    {
      SettledConsistent(bus.(scl := level));
      bus := Settled(bus.(scl := level));
    }

    /** Reads SDA while the clock is low; the chip may have been waiting for that to pull it. */
    method SdaReadLow() returns (level: bool)
      requires Valid() && Low(bus, 8)
      modifies this
      ensures Valid() && Low(bus, 8)
      ensures bus.ear == old(bus.ear) && bus.sda == old(bus.sda) && bus.out == old(bus.out)
      ensures bus.slave == Look(old(bus.slave)) && level == SdaLevel(bus)
    {
      ghost var b := bus.(slave := Look(bus.slave));
      LookSettles(bus);
      SettledConsistent(b);
      bus := Settled(bus.(slave := Look(bus.slave)));
      level := SdaLevel(bus);
    }

    method SdaRead() returns (level: bool)
      ensures level == SdaLevel(bus)
    {
      level := SdaLevel(bus);
    }

    // ------------------------------------------------------------ start, stop, bytes

    method StartCondition()
      requires Valid() && ((Low(bus, 0) && bus.slave.release) || AtRest(bus))
      modifies this
      ensures Valid() && Low(bus, 0) && bus.slave == Started(old(bus.slave))
      ensures bus.ear.items == old(bus.ear.items) + [Start]
    {
      if bus.scl {
        StartAtRest(bus);
      } else {
        StartFromLow(bus);
      }
      SdaDirOut();
      Sda(true);
      Scl(true);
      Sda(false);
      Scl(false);
    }

    /** Ends a transfer; a chip that still holds SDA low keeps the stop condition from appearing. */
    method StopCondition()
      requires Valid() && Low(bus, 0)
      modifies this
      ensures Valid() && bus == StopSequence(old(bus))
      ensures if old(bus.slave.release) then
                && AtRest(bus) && bus.slave == Stopped(old(bus.slave))
                && bus.ear.items == old(bus.ear.items) + [Stop]
              else bus.ear.items == old(bus.ear.items) && StartSequence(bus).ear.items == old(bus.ear.items)
    {
      if bus.slave.release {
        StopFromLow(bus);
      } else {
        StuckBus(bus);
      }
      SdaDirOut();
      Sda(false);
      Scl(true);
      Sda(true);
    }

    /** Clocks out one data bit. */
    method PutBit(level: bool, ghost i: nat)
      requires Valid() && Low(bus, i) && i < 8 && bus.out
      modifies this
      ensures Valid() && Low(bus, i + 1) && bus.out
      ensures var heard := level && old(bus.slave.release);
              && bus.ear == old(bus.ear).(bits := old(bus.ear.bits) + [heard])
              && var s := old(bus.slave).(bits := old(bus.slave.bits) + [heard], lag := 0);
                 FromBits(s.bits) < 256
                 && bus.slave == if i == 7 && s.mode != Send then Decided(s, FromBits(s.bits)) else Sending(s)
    {
      ghost var b := bus;
      LowChange(b, b.(scl := false), i);
      Scl(false);
      LowChange(bus, bus.(sda := level), i);
      Sda(level);
      ClockBit(bus, i);
      Scl(true);
      Scl(false);
    }

    /** Tests the bit under the mask and moves the mask on. */
    method TestBit(data: byte, mask: nat, ghost i: nat) returns (level: bool, mask': nat)
      requires i < 8 && mask == MaskAt(i)
      ensures level == ToBits(data)[i] && mask' == MaskAt(i + 1)
    {
      MaskedAt(data, i);
      level := Masked(data, mask);
      mask' := mask / 2;
    }

    /** Clocks out the eight bits of a byte, most significant first. */
    method PutBits(data: byte)
      requires Valid() && Low(bus, 0) && bus.out && Attentive(bus.slave)
      modifies this
      ensures Valid() && BitsOut(bus, old(bus.slave), data, 8) && bus.ear.items == old(bus.ear.items)
    {
      ghost var s := bus.slave;
      var mask, i := 0x80, 0;
      while i < 8
        invariant 0 <= i <= 8 && mask == MaskAt(i)
        invariant Valid() && BitsOut(bus, s, data, i) && bus.ear.items == old(bus.ear.items)
      {
        ghost var b := bus;
        var level;
        level, mask := TestBit(data, mask, i);
        PutBit(level, i);
        BitsOutNext(b, bus, s, data, i);
        i := i + 1;
      }
    }

    /** Sends one byte; true if it was acknowledged. */
    method WriteByte(data: byte) returns (ack: bool)
      requires Valid() && Low(bus, 0) && Attentive(bus.slave)
      modifies this
      ensures Valid() && Low(bus, 0)
      ensures bus.ear.items == old(bus.ear.items) + [Byte(Heard(old(bus.slave), data), ack)]
      ensures ack == WillAck(old(bus.slave), data) && bus.slave == Received(old(bus.slave), data)
    {
      ghost var s := bus.slave;
      LowChange(bus, bus.(out := true), 0);
      SdaDirOut();
      PutBits(data);
      LowChange(bus, bus.(out := false), 8);
      SdaDirIn();
      ack := GetAck(s, data);
    }

    /** Waits a while for the chip to pull SDA, and clocks the acknowledge in. */
    method GetAck(ghost s: Slave, ghost data: byte) returns (ack: bool)
      requires Valid() && Low(bus, 8) && !bus.out
      requires Attentive(s) && bus.slave == Decided(s.(bits := HeardBits(s, data), release := true), Heard(s, data))
      modifies this
      ensures Valid() && Low(bus, 0)
      ensures bus.ear.items == old(bus.ear.items) + [Byte(Heard(s, data), ack)]
      ensures ack == WillAck(s, data) && bus.slave == Received(s, data)
    {
      WaitAck();
      AckSeen(s, data, bus.slave);
      Rise(bus, 8);
      ClockAck(bus);
      Scl(true);
      var level := SdaRead();
      ack := !level;
      Scl(false);
    }

    /** Looks at SDA until it is low, but not much more than a million times. */
    method WaitAck()
      requires Valid() && Low(bus, 8) && !bus.out && (bus.slave.lag > 0 ==> bus.slave.release)
      modifies this
      ensures Valid() && Low(bus, 8) && !bus.out && bus.ear == old(bus.ear)
      ensures WaitedFor(old(bus.slave), bus.slave)
      // an acknowledge is seen exactly if it takes no more than so many looks
      ensures old(bus.slave.lag) > 0 ==> (bus.slave.release <==> old(bus.slave.lag) > 1_000_001)
    {
      var w := 0;
      ghost var s := bus.slave;
      while true
        invariant 0 <= w <= 1_000_000
        invariant Valid() && Low(bus, 8) && !bus.out && bus.ear == old(bus.ear)
        invariant s.lag == 0 ==> bus.slave == s
        invariant s.lag > 0 ==> w < s.lag && bus.slave == s.(lag := s.lag - w)
        decreases 1_000_000 - w
      {
        var level := SdaReadLow();
        if !level {
          break;
        }
        w := w + 1;
        if !(w - 1 < 1_000_000) {
          break;
        }
      }
    }

    /** Clocks in one data bit. */
    method TakeBit(ghost s: Slave, ghost i: nat) returns (level: bool)
      requires Valid() && i < 8 && ReadyToSend(s) && BitsIn(bus, s, i)
      modifies this
      ensures Valid() && BitsIn(bus, s, i + 1) && bus.ear.items == old(bus.ear.items)
      ensures level == ToBits(s.mem[s.ptr])[i]
    {
      BitsInNext(bus, s, i);
      Scl(true);
      level := SdaRead();
      Scl(false);
    }

    /** Reads one byte and answers it. */
    method ReadByte(ack: bool) returns (data: byte)
      requires Valid() && Low(bus, 0) && ReadyToSend(bus.slave)
      modifies this
      ensures Valid() && Low(bus, 0)
      ensures data == old(bus.slave.mem[bus.slave.ptr])
      ensures bus.ear.items == old(bus.ear.items) + [Byte(data, ack)]
      ensures bus.slave == Completed(old(bus.slave), data, ack)
    {
      ghost var s := bus.slave;
      LowChange(bus, bus.(out := false), 0);
      SdaDirIn();
      LowChange(bus, bus.(scl := false), 0);
      Scl(false);
      data := TakeBits(s);
      GiveAck(ack, s);
    }

    /** Clocks in the eight bits of a byte, the top one first. */
    method TakeBits(ghost s: Slave) returns (value: int)
      requires Valid() && ReadyToSend(s) && BitsIn(bus, s, 0)
      modifies this
      ensures Valid() && BitsIn(bus, s, 8) && bus.ear.items == old(bus.ear.items)
      ensures value == s.mem[s.ptr]
    {
      ghost var v := s.mem[s.ptr];
      var i := 0;
      value := 0;
      while i < 8
        invariant 0 <= i <= 8 && value == FromBits(ToBits(v)[..i])
        invariant Valid() && BitsIn(bus, s, i) && bus.ear.items == old(bus.ear.items)
      {
        FromBitsNext(ToBits(v), i);
        value := value * 2;
        var level := TakeBit(s, i);
        if level {
          value := value + 1;
        }
        i := i + 1;
      }
      BitsRoundTrip(v);
      assert ToBits(v)[..8] == ToBits(v);
    }

    /** Turns SDA round and clocks out the answer to a byte that was read. */
    method GiveAck(ack: bool, ghost s: Slave)
      requires Valid() && ReadyToSend(s) && BitsIn(bus, s, 8)
      modifies this
      ensures Valid() && Low(bus, 0)
      ensures bus.ear.items == old(bus.ear.items) + [Byte(s.mem[s.ptr], ack)]
      ensures bus.slave == Completed(s, s.mem[s.ptr], ack)
    {
      ByteAnswered(bus, s, ack);
      Scl(false);
      SdaDirOut();
      Sda(!ack);
      Scl(true);
      Scl(false);
      Sda(false);
    }

    // ------------------------------------------------------------ transfers

    /** Sends bytes as long as they are acknowledged. */
    method SendAll(bytes: seq<byte>) returns (ok: bool)
      requires Valid() && Low(bus, 0) && Attentive(bus.slave)
      modifies this
      ensures Valid() && Low(bus, 0) && Attentive(bus.slave)
      ensures ok == AllAcked(old(bus.slave), bytes) && bus.slave == ReceivedAll(old(bus.slave), bytes)
      ensures bus.ear.items == old(bus.ear.items) + BytesSaid(old(bus.slave), bytes)
    {
      ok := true;
      ghost var s, items, said := bus.slave, bus.ear.items, [];
      var rest := bytes;
      while ok && rest != []
        invariant Valid() && PartSent(s, items, bytes, rest, said, ok)
        decreases |rest|
      {
        ok, said := SendOne(rest[0], s, items, bytes, rest, said);
        rest := rest[1..];
      }
      assert said + [] == said;
    }

    /** Some of the bytes have been sent to a chip that was "s", on a bus that had said "items". */
    ghost predicate PartSent(s: Slave, items: seq<Item>, bytes: seq<byte>, rest: seq<byte>, said: seq<Item>, ok: bool)
      reads this
    {
      Low(bus, 0) && SentSoFar(s, bytes, bus.slave, rest, said, ok) && bus.ear.items == items + said
    }

    method SendOne(data: byte, ghost s: Slave, ghost items: seq<Item>, ghost bytes: seq<byte>, ghost rest: seq<byte>,
                   ghost said: seq<Item>)
      returns (ok: bool, ghost said': seq<Item>)
      requires Valid() && rest != [] && data == rest[0] && PartSent(s, items, bytes, rest, said, true)
      modifies this
      ensures Valid() && PartSent(s, items, bytes, rest[1..], said', ok)
    {
      SentNext(s, bytes, bus.slave, rest, said);
      ghost var heard := Heard(bus.slave, data);
      ok := WriteByte(data);
      said' := said + [Byte(heard, ok)];
    }

    /** Reads bytes into the buffer, acknowledging all but the last. */
    method ReadAll(buffer: array<byte>, n: nat)
      requires Valid() && Low(bus, 0) && ReadyToSend(bus.slave) && n <= buffer.Length && n > 0
      modifies this, buffer
      ensures Valid() && Low(bus, 0) && bus.slave == SentAll(old(bus.slave), n) && bus.slave.release
      ensures bus.slave.mem == old(bus.slave.mem)
      ensures buffer[..n] == Loaded(old(bus.slave.mem), old(bus.slave.ptr), n)
      ensures buffer[n..] == old(buffer[n..])
      ensures bus.ear.items == old(bus.ear.items) + ReadItems(buffer[..n])
    {
      ghost var s, items := bus.slave, bus.ear.items;
      ghost var all := Loaded(s.mem, s.ptr, n);
      var i := 0;
      while i < n
        invariant 0 <= i <= n && Valid() && Reading(s, items, n, i)
        invariant buffer[..i] == all[..i] && buffer[n..] == old(buffer[n..])
      {
        ReadInto(buffer, s, items, n, i);
        i := i + 1;
      }
      assert all[..n] == all && ReadItems(all)[..n] == ReadItems(all);
    }

    /** i of n bytes have been read from a chip that was "s". */
    ghost predicate Reading(s: Slave, items: seq<Item>, n: nat, i: nat)
      reads this
    {
      && i <= n && Low(bus, 0) && s.ptr < |s.mem|
      && var all := Loaded(s.mem, s.ptr, n);
         ReadSoFar(s, n, bus.slave, n - i, all[..i]) && bus.ear.items == items + ReadItems(all)[..i]
    }

    method ReadOne(ghost s: Slave, ghost items: seq<Item>, n: nat, i: nat) returns (data: byte)
      requires Valid() && i < n && Reading(s, items, n, i)
      modifies this
      ensures Valid() && Reading(s, items, n, i + 1) && data == Loaded(s.mem, s.ptr, n)[i]
    {
      ghost var all := Loaded(s.mem, s.ptr, n);
      ReadNext(s, n, bus.slave, n - i, all[..i]);
      ReadItemsNext(all, i);
      assert all[..i + 1] == all[..i] + [all[i]];
      data := ReadByte(i != n - 1);
    }

    /** Reads byte i and stores it behind those that are there. */
    method ReadInto(buffer: array<byte>, ghost s: Slave, ghost items: seq<Item>, n: nat, i: nat)
      requires Valid() && i < n <= buffer.Length && Reading(s, items, n, i)
      requires buffer[..i] == Loaded(s.mem, s.ptr, n)[..i]
      modifies this, buffer
      ensures Valid() && Reading(s, items, n, i + 1)
      ensures buffer[..i + 1] == Loaded(s.mem, s.ptr, n)[..i + 1] && buffer[n..] == old(buffer[n..])
    {
      ghost var all := Loaded(s.mem, s.ptr, n);
      var data := ReadOne(s, items, n, i);
      buffer[i] := data;
      assert all[..i + 1] == all[..i] + [all[i]];
    }

    /** A start condition, bytes up to the first one that is not acknowledged, a stop condition. */
    method WriteCall(bytes: seq<byte>) returns (ok: bool)
      requires Valid() && AtRest(bus) && |bytes| > 1
      modifies this
      ensures Valid() && WriteDone(old(bus), bus, bytes, ok)
      ensures Edges(bus.wave) == Edges(old(bus.wave)) + 2
    {
      StartCondition();
      NotSending(bus.slave, bytes);
      ok := SendAll(bytes);
      StopCondition();
      WriteEdges(old(bus), bus, bytes, ok);
    }

    /**
     Selects an address, restarts in the other direction, reads, and stops.  "restart" tells whether
     the restart is made even when the address was not acknowledged.
     */
    method ReadCall(head: seq<byte>, restart: bool, buffer: array<byte>, n: nat) returns (ok: bool)
      requires Valid() && AtRest(bus) && |head| > 1 && n <= buffer.Length
      modifies this, buffer
      ensures Valid() && ReadDone(old(bus), bus, head, restart, buffer[..n], ok)
      ensures Edges(bus.wave) == Edges(old(bus.wave)) + ReadConditions(old(bus), head, restart, n, ok)
      ensures buffer[n..] == old(buffer[n..]) && (!ok ==> buffer[..] == old(buffer[..]))
    {
      ok := SelectAndTurn(head, restart);
      Finish(ok, buffer, n);
      ReadEdges(old(bus), bus, head, restart, buffer[..n], ok);
    }

    /** The data of a read call that has got that far, and the stop condition. */
    method Finish(ok: bool, buffer: array<byte>, n: nat)
      requires Valid() && Low(bus, 0) && n <= buffer.Length && if ok then ReadyToSend(bus.slave) else bus.slave.release
      modifies this, buffer
      ensures Valid() && buffer[n..] == old(buffer[n..]) && (!ok ==> buffer[..] == old(buffer[..]))
      ensures !ok ==> AtRest(bus) && bus.ear.items == old(bus.ear.items) + [Stop]
      ensures ok && n > 0 ==>
                && AtRest(bus) && bus.slave.mem == old(bus.slave.mem)
                && buffer[..n] == Loaded(old(bus.slave.mem), old(bus.slave.ptr), n)
                && bus.ear.items == old(bus.ear.items) + ReadItems(buffer[..n]) + [Stop]
      ensures ok && n == 0 ==>
                if old(bus.slave.release) then
                  AtRest(bus) && bus.slave == Stopped(old(bus.slave)) && bus.ear.items == old(bus.ear.items) + [Stop]
                else
                  bus.ear.items == old(bus.ear.items) && StartSequence(bus).ear.items == old(bus.ear.items)
    {
      if ok && n > 0 {
        ReadAll(buffer, n);
      }
      StopCondition();
    }

    /** The part of a read call before the data. */
    method SelectAndTurn(head: seq<byte>, restart: bool) returns (ok: bool)
      requires Valid() && AtRest(bus) && |head| > 1
      modifies this
      ensures Valid() && Low(bus, 0)
      ensures ok == ReadAcked(Started(old(bus.slave)), head)
      ensures bus.ear.items == old(bus.ear.items) + SelectionSaid(Started(old(bus.slave)), head, restart)
      ensures if ok then bus.slave == Turned(Started(old(bus.slave)), head) && ReadyToSend(bus.slave)
              else bus.slave.release
    {
      SelectionSplit(bus.ear.items, Started(bus.slave), head, restart);
      ok := Select(head, restart);
      if ok {
        ok := SendReadAddress(ReadAddress(head[0]));
      }
    }

    /** A start condition, the bytes that select the address, and another start condition. */
    method Select(head: seq<byte>, restart: bool) returns (ok: bool)
      requires Valid() && AtRest(bus) && |head| > 1
      modifies this
      ensures Valid() && Low(bus, 0) && bus.slave.release && ok == AllAcked(Started(old(bus.slave)), head)
      ensures ok ==> bus.slave == Started(ReceivedAll(Started(old(bus.slave)), head))
      ensures bus.ear.items == old(bus.ear.items) + [Start] + BytesSaid(Started(old(bus.slave)), head)
                               + SecondStart(Started(old(bus.slave)), head, restart)
    {
      NotSending(Started(bus.slave), head);
      StartCondition();
      ok := SendAll(head);
      if ok || restart {
        StartCondition();
      }
    }

    /** Sends the device address with the read bit set. */
    method SendReadAddress(address: byte) returns (ok: bool)
      requires Valid() && Low(bus, 0) && Listening(bus.slave) && bus.slave.mode == Address && address % 2 == 1
      modifies this
      ensures Valid() && Low(bus, 0) && bus.slave == Received(old(bus.slave), address)
      ensures bus.ear.items == old(bus.ear.items) + [Byte(address, ok)]
      ensures ok == WillAck(old(bus.slave), address)
      ensures if ok then ReadyToSend(bus.slave) else bus.slave.release
    {
      HeardAsSent(bus.slave, address);
      ok := WriteByte(address);
    }

    // ------------------------------------------------------------ the calls

    static function JoinBytes(high: byte, low: byte): (v: nat)
      ensures v < 0x1_0000 && v / 256 == high && v % 256 == low
    {
      var h: int, l: int := high, low;
      h * 256 + l
    }

    method Write(device: byte, control: byte, data: byte) returns (ok: bool)
      requires Valid() && AtRest(bus)
      modifies this
      ensures Valid() && WriteDone(old(bus), bus, [device, control, data], ok)
    {
      ok := WriteCall([device, control, data]);
    }

    method Write16(device: byte, control: byte, data: nat) returns (ok: bool)
      requires Valid() && AtRest(bus) && data < 0x1_0000
      modifies this
      ensures Valid() && WriteDone(old(bus), bus, [device, control, data / 256, data % 256], ok)
    {
      ok := WriteCall([device, control, data / 256, data % 256]);
    }

    method Read(device: byte, control: byte) returns (ok: bool, data: byte)
      requires Valid() && AtRest(bus)
      modifies this
      ensures Valid() && ReadDone(old(bus), bus, [device, control], true, [data], ok)
    {
      var buffer := new byte[1];
      ok := ReadCall([device, control], true, buffer, 1);
      data := buffer[0];
      assert buffer[..1] == [data];
    }

    method Read16(device: byte, control: byte) returns (ok: bool, data: nat)
      requires Valid() && AtRest(bus)
      modifies this
      ensures Valid() && data < 0x1_0000
      ensures ReadDone(old(bus), bus, [device, control], true, [data / 256, data % 256], ok)
    {
      var buffer := new byte[2];
      ok := ReadCall([device, control], true, buffer, 2);
      data := JoinBytes(buffer[0], buffer[1]);
      assert buffer[..2] == [data / 256, data % 256];
    }

    method MultipleRead(device: byte, control: byte, buffer: array<byte>, len: nat) returns (ok: bool)
      requires Valid() && AtRest(bus) && len <= buffer.Length
      modifies this, buffer
      ensures Valid() && ReadDone(old(bus), bus, [device, control], false, buffer[..len], ok)
      ensures buffer[len..] == old(buffer[len..]) && (!ok ==> buffer[..] == old(buffer[..]))
    {
      ok := ReadCall([device, control], false, buffer, len);
    }

    method LongWrite(device: byte, address: nat, data: byte) returns (ok: bool)
      requires Valid() && AtRest(bus) && address < 0x1_0000
      modifies this
      ensures Valid() && WriteDone(old(bus), bus, Head(device, true, address) + [data], ok)
    {
      ok := WriteCall(Head(device, true, address) + [data]);
    }

    method LongRead(device: byte, address: nat) returns (ok: bool, data: byte)
      requires Valid() && AtRest(bus) && address < 0x1_0000
      modifies this
      ensures Valid() && ReadDone(old(bus), bus, Head(device, true, address), true, [data], ok)
    {
      var buffer := new byte[1];
      ok := ReadCall(Head(device, true, address), true, buffer, 1);
      data := buffer[0];
      assert buffer[..1] == [data];
    }

    method LongMultipleWrite(device: byte, address: nat, data: seq<byte>) returns (ok: bool)
      requires Valid() && AtRest(bus) && address < 0x1_0000
      modifies this
      ensures Valid() && WriteDone(old(bus), bus, Head(device, true, address) + data, ok)
    {
      ok := WriteCall(Head(device, true, address) + data);
    }

    method LongMultipleRead(device: byte, address: nat, buffer: array<byte>, len: nat) returns (ok: bool)
      requires Valid() && AtRest(bus) && address < 0x1_0000 && len <= buffer.Length
      modifies this, buffer
      ensures Valid() && ReadDone(old(bus), bus, Head(device, true, address), false, buffer[..len], ok)
      ensures buffer[len..] == old(buffer[len..]) && (!ok ==> buffer[..] == old(buffer[..]))
    {
      ok := ReadCall(Head(device, true, address), false, buffer, len);
    }

    method LongWrite16(device: byte, address: nat, data: nat) returns (ok: bool)
      requires Valid() && AtRest(bus) && address < 0x1_0000 && data < 0x1_0000
      modifies this
      ensures Valid() && WriteDone(old(bus), bus, Head(device, true, address) + [data / 256, data % 256], ok)
    {
      ok := LongMultipleWrite(device, address, [data / 256, data % 256]);
    }

    method LongRead16(device: byte, address: nat) returns (ok: bool, data: nat)
      requires Valid() && AtRest(bus) && address < 0x1_0000
      modifies this
      ensures Valid() && data < 0x1_0000
      ensures ReadDone(old(bus), bus, Head(device, true, address), false, [data / 256, data % 256], ok)
    {
      var buffer := new byte[2];
      ok := LongMultipleRead(device, address, buffer, 2);
      data := JoinBytes(buffer[0], buffer[1]);
      assert buffer[..2] == [data / 256, data % 256];
    }
  }

  // ---------------------------------------------------------------- round trips

  /** What a chip that has an address selected and is turned round would send. */
  ghost predicate ReadsBack(s: Slave, head: seq<byte>, data: seq<byte>)
    requires s.mem != [] && s.ptr < |s.mem| && head != []
  {
    var t := Turned(s, head);
    ReadAcked(s, head) && Loaded(t.mem, t.ptr, |data|) == data
  }

  /** A prompt memory that is turned round sends from the selected cell on. */
  lemma TurnedAtCell(s: Slave, device: byte, address: nat)
    requires Listening(s) && s.mode == Address && Prompt(s, device) && address < 0x1_0000
    ensures var head, t := Head(device, s.wide, address), Turned(s, Head(device, s.wide, address));
            ReadAcked(s, head) && t.mem == s.mem && t.ptr == CellOf(s, address)
  {
    SelectsAddress(s, device, address);
    TurnsRound(ReceivedAll(s, Head(device, s.wide, address)), device);
  }

  lemma TurnsRound(r: Slave, device: byte)
    requires r.mem != [] && r.ptr < |r.mem| && Prompt(r, device)
    ensures WillAck(Started(r), device + 1)
    ensures var t := Received(Started(r), device + 1); t.mem == r.mem && t.ptr == r.ptr
  {
  }

  /**
   So a read call of no bytes from a prompt memory ends well exactly when the byte at the address is
   128 or more; a call of at least one byte always does.
   */
  lemma EmptyReadOfMemory(b: Bus, b': Bus, device: byte, address: nat)
    requires WellFormed(b.slave) && Prompt(b.slave, device) && address < 0x1_0000
    requires ReadDone(b, b', Head(device, b.slave.wide, address), false, [], true)
    ensures var said := b.ear.items + SelectionSaid(Started(b.slave), Head(device, b.slave.wide, address), false);
            if b.slave.mem[CellOf(b.slave, address)] >= 128 then AtRest(b') && b'.ear.items == said + [Stop]
            else b'.ear.items == said && StartSequence(b').ear.items == said
  {
    TurnedAtCell(Started(b.slave), device, address);
    assert CellOf(Started(b.slave), address) == CellOf(b.slave, address);
    TopBit(b.slave.mem[CellOf(b.slave, address)]);
  }

  /** A read call of no bytes that succeeds, and of which no stop condition is heard. */
  method EmptyReadStuck(mem: seq<byte>, device: byte, control: byte) returns (ok: bool, items: seq<Item>)
    requires mem != [] && mem[control % |mem|] < 128 && device % 2 == 0
    ensures ok && items == [Start, Byte(device, true), Byte(control, true), Start, Byte(device + 1, true)]
  {
    var port := new I2cPort(Slave(mem, device, false, [], Idle, 0, 0, [], true, 0));
    var buffer := new byte[0];
    ghost var b := port.bus;
    assert Head(device, false, control) == [device, control];
    EmptySelection(b.slave, device, control);
    ok := port.MultipleRead(device, control, buffer, 0);
    items := port.bus.ear.items;
    assert buffer[..0] == [];
    EmptyReadOfMemory(b, port.bus, device, control);
  }

  lemma EmptySelection(s: Slave, device: byte, control: byte)
    requires WellFormed(s) && Prompt(s, device) && !s.wide
    ensures ReadAcked(Started(s), [device, control])
    ensures SelectionSaid(Started(s), [device, control], false)
         == [Start, Byte(device, true), Byte(control, true), Start, Byte(device + 1, true)]
    ensures CellOf(s, control) == control % |s.mem|
  {
    assert Head(device, false, control) == [device, control];
    TurnedAtCell(Started(s), device, control);
    BytesSaidMeans(Started(s), [device, control]);
    var said := BytesSaid(Started(s), [device, control]);
    assert said == [Byte(device, true), Byte(control, true)];
    assert ReadAddress(device) == device + 1;
  }

  /** The simplest such call: a one-byte memory that holds a zero. */
  method EmptyReadExample() returns (ok: bool, items: seq<Item>)
    ensures ok && items == [Start, Byte(0xA0, true), Byte(0, true), Start, Byte(0xA1, true)]
  {
    ok, items := EmptyReadStuck([0], 0xA0, 0);
  }

  /** A write call and a stop condition leave a prompt memory with the data in the addressed cells. */
  lemma WrittenChip(s: Slave, device: byte, address: nat, data: seq<byte>)
    requires WellFormed(s) && Prompt(s, device) && address < 0x1_0000
    ensures AllAcked(Started(s), Head(device, s.wide, address) + data)
    ensures var w := Started(Stopped(ReceivedAll(Started(s), Head(device, s.wide, address) + data)));
            && w.mem == Stored(s.mem, CellOf(s, address), data)
            && Listening(w) && w.mode == Address && Prompt(w, device) && w.wide == s.wide
  {
    WriteStores(Started(s), device, address, data);
    assert CellOf(Started(s), address) == CellOf(s, address);
  }

  /**
   A prompt memory gives back what was written to it, at any address and of any length it can hold:
   both calls are acknowledged throughout, and the read call finds the data.
   */
  lemma MemoryRoundTrip(s: Slave, device: byte, address: nat, data: seq<byte>)
    requires WellFormed(s) && Prompt(s, device) && address < 0x1_0000
    requires |data| <= |s.mem|
    ensures AllAcked(Started(s), Head(device, s.wide, address) + data)
    ensures ReadsBack(Started(Stopped(ReceivedAll(Started(s), Head(device, s.wide, address) + data))),
                      Head(device, s.wide, address), data)
  {
    WrittenChip(s, device, address, data);
    var w := Started(Stopped(ReceivedAll(Started(s), Head(device, s.wide, address) + data)));
    FindsStored(s, w, device, address, data);
  }

  lemma FindsStored(s: Slave, w: Slave, device: byte, address: nat, data: seq<byte>)
    requires WellFormed(s) && Prompt(s, device) && address < 0x1_0000 && |data| <= |s.mem|
    requires Listening(w) && w.mode == Address && Prompt(w, device) && w.wide == s.wide
    requires w.mem == Stored(s.mem, CellOf(s, address), data)
    ensures ReadsBack(w, Head(device, s.wide, address), data)
  {
    TurnedAtCell(w, device, address);
    assert CellOf(w, address) == CellOf(s, address);
    LoadAfterStore(s.mem, CellOf(s, address), data);
  }

  /** The same as one program: write, then read into a buffer. */
  method WriteThenRead(port: I2cPort, device: byte, address: nat, data: seq<byte>, buffer: array<byte>)
    returns (wrote: bool, read: bool)
    requires port.Valid() && AtRest(port.bus) && port.bus.slave.wide && Prompt(port.bus.slave, device)
    requires address < 0x1_0000 && 0 < |data| <= |port.bus.slave.mem| && |data| <= buffer.Length
    modifies port, buffer
    ensures wrote && read && buffer[..|data|] == data
  {
    MemoryRoundTrip(port.bus.slave, device, address, data);
    wrote := port.LongMultipleWrite(device, address, data);
    read := port.LongMultipleRead(device, address, buffer, |data|);
  }

  /** The same for 16-bit values. */
  method Write16ThenRead16(port: I2cPort, device: byte, address: nat, data: nat) returns (back: nat)
    requires port.Valid() && AtRest(port.bus) && port.bus.slave.wide && Prompt(port.bus.slave, device)
    requires address < 0x1_0000 && data < 0x1_0000 && 2 <= |port.bus.slave.mem|
    modifies port
    ensures back == data
  {
    MemoryRoundTrip(port.bus.slave, device, address, [data / 256, data % 256]);
    var wrote := port.LongWrite16(device, address, data);
    var read;
    read, back := port.LongRead16(device, address);
    assert [back / 256, back % 256][0] == data / 256 && [back / 256, back % 256][1] == data % 256;
  }
}
