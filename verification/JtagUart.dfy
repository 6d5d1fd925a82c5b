/**
 The interrupt-driven JTAG UART driver.

 Between any two accesses a thread makes to shared data, "Interrupts" lets the interrupt routine
 and the timeout routine run any number of times, with any device behaviour.  Every access is
 recorded as a step of the protocol machine, so what holds in all its reachable states holds here.
 */
module JtagUart {
  import opened Arithmetic
  import opened Errno
  import opened RingBuffers
  import opened JtagUartProtocol

  /** The control register as read: pending interrupts, host activity, room in the device. */
  datatype ControlWord = ControlWord(ri: bool, wi: bool, ac: bool, wspace: nat) {
    /** An interrupt is pending. */
    predicate Asks() { ri || wi }
  }

  /** The data register as read: the byte, whether it is one, and how many more there are. */
  datatype DataWord = DataWord(data: byte, rvalid: bool, ravail: nat)

  /** A byte that the device has to give, and how many it announces behind it. */
  datatype FifoByte = FifoByte(b: byte, behind: nat)

  /** What one turn of the interrupt routine meets; "fifo" reaches up to where the device would be found empty. */
  datatype Turn = Turn(control: ControlWord, fifo: seq<FifoByte>)

  function Bytes(fifo: seq<FifoByte>): (r: seq<byte>)
    ensures |r| == |fifo| && forall k :: 0 <= k < |r| ==> r[k] == fifo[k].b
  {
    seq(|fifo|, k requires 0 <= k < |fifo| => fifo[k].b)
  }

  /** How many turns the interrupt routine makes: up to the first that finds no interrupt pending. */
  function TurnsMade(turns: seq<Turn>): (n: nat)
    ensures n <= |turns|
  {
    if turns == [] || !turns[0].control.Asks() then 0 else 1 + TurnsMade(turns[1..])
  }

  lemma {:induction false} TurnsMadeMeans(turns: seq<Turn>)
    ensures forall k :: 0 <= k < TurnsMade(turns) ==> turns[k].control.Asks()
    ensures TurnsMade(turns) < |turns| ==> !turns[TurnsMade(turns)].control.Asks()
  {
    if turns != [] && turns[0].control.Asks() {
      TurnsMadeMeans(turns[1..]);
      assert forall k :: 0 < k < TurnsMade(turns) ==> turns[k] == turns[1..][k - 1];
    }
  }

  /** The first k turns are made. */
  predicate Makes(turns: seq<Turn>, k: nat)
    requires k <= |turns|
  {
    TurnsMade(turns) == k + TurnsMade(turns[k..])
  }

  lemma MakesNext(turns: seq<Turn>, k: nat)
    requires k < |turns| && Makes(turns, k)
    ensures if turns[k].control.Asks() then Makes(turns, k + 1) else k == TurnsMade(turns)
  {
    assert turns[k..][1..] == turns[k + 1..];
  }

  /** The room in the device over all turns that find a transmit interrupt. */
  function Room(turns: seq<Turn>): nat {
    if turns == [] then 0
    else
      var k := |turns| - 1;
      Room(turns[..k]) + if turns[k].control.wi then turns[k].control.wspace else 0
  }

  /** What the device has to give over all turns that find a receive interrupt. */
  function Offered(turns: seq<Turn>): seq<FifoByte> {
    if turns == [] then []
    else
      var k := |turns| - 1;
      Offered(turns[..k]) + if turns[k].control.ri then turns[k].fifo else []
  }

  /** The device is left with bytes: there was no room for any, or the last one taken was not the last. */
  predicate LeftBehind(fifo: seq<FifoByte>, room: nat) {
    room == 0 || (room <= |fifo| && fifo[room - 1].behind != 0)
  }

  /** The room that is left for turn k in a ring that starts out with the given room. */
  function RoomAt(turns: seq<Turn>, k: nat, room: nat): nat
    requires k <= |turns|
  {
    room - Min(|Offered(turns[..k])|, room)
  }

  /** One of the first n turns left bytes in the device. */
  predicate SomeLeftBehind(turns: seq<Turn>, n: nat, room: nat)
    requires n <= |turns|
  {
    n > 0 && (SomeLeftBehind(turns, n - 1, room)
              || (turns[n - 1].control.ri && LeftBehind(turns[n - 1].fifo, RoomAt(turns, n - 1, room))))
  }

  lemma {:induction false} SomeLeftBehindMeans(turns: seq<Turn>, n: nat, room: nat)
    requires n <= |turns|
    ensures SomeLeftBehind(turns, n, room) <==>
              exists k: nat :: k < n && turns[k].control.ri
                               && var left := RoomAt(turns, k, room);
                                  left == 0 || (left <= |turns[k].fifo| && turns[k].fifo[left - 1].behind != 0)
  {
    if n > 0 {
      SomeLeftBehindMeans(turns, n - 1, room);
    }
  }

  /** What each turn adds. */
  lemma NextTurn(turns: seq<Turn>, k: nat)
    requires k < |turns|
    ensures var t := turns[k];
            && Room(turns[..k + 1]) == Room(turns[..k]) + (if t.control.wi then t.control.wspace else 0)
            && Offered(turns[..k + 1]) == Offered(turns[..k]) + (if t.control.ri then t.fifo else [])
            && Room(turns[..0]) == |Offered(turns[..0])| == 0
  {
    assert turns[..k + 1][..k] == turns[..k];
  }

  /** How far both directions have got: bytes sent and waiting, bytes received and room for more. */
  datatype Traffic = Traffic(sent: nat, waiting: nat, received: seq<byte>, room: nat, enabled: IrqBits)

  /** What waits went out as far as the device had space; the interrupt is off if it had space for more. */
  predicate Sending(before: Traffic, after: Traffic, space: nat) {
    && after.sent == before.sent + Min(space, before.waiting)
    && after.waiting == before.waiting - Min(space, before.waiting)
    && after.enabled.we == (before.enabled.we && space <= before.waiting)
  }

  /** What the device has came in as far as there was room; the interrupt is off if bytes were left behind. */
  predicate Receiving(before: Traffic, after: Traffic, fifo: seq<FifoByte>, left: bool) {
    && after.received == before.received + Bytes(fifo)[..Min(|fifo|, before.room)]
    && after.room == before.room - Min(|fifo|, before.room)
    && after.enabled.re == (before.enabled.re && !left)
  }

  /** What the first n turns have done. */
  predicate Served(turns: seq<Turn>, n: nat, before: Traffic, after: Traffic)
    requires n <= |turns|
  {
    && Sending(before, after, Room(turns[..n]))
    && Receiving(before, after, Offered(turns[..n]), SomeLeftBehind(turns, n, before.room))
  }

  lemma ServedNext(turns: seq<Turn>, n: nat, before: Traffic, between: Traffic, after: Traffic)
    requires n < |turns| && Served(turns, n, before, between)
    requires Sending(between, after, if turns[n].control.wi then turns[n].control.wspace else 0)
    requires var fifo := if turns[n].control.ri then turns[n].fifo else [];
             Receiving(between, after, fifo, turns[n].control.ri && LeftBehind(turns[n].fifo, between.room))
    ensures Served(turns, n + 1, before, after)
  {
    NextTurn(turns, n);
    ReceivingOn(before.received, Offered(turns[..n]), if turns[n].control.ri then turns[n].fifo else [],
                before.room, between.room);
    assert between.room == RoomAt(turns, n, before.room);
  }

  /** Taking as much as fits of one supply, and then of the next, is taking as much as fits of both. */
  lemma ReceivingOn(had: seq<byte>, first: seq<FifoByte>, second: seq<FifoByte>, room: nat, left: nat)
    requires left == room - Min(|first|, room)
    ensures had + Bytes(first)[..Min(|first|, room)] + Bytes(second)[..Min(|second|, left)]
         == had + Bytes(first + second)[..Min(|first + second|, room)]
  {
    assert Bytes(first + second) == Bytes(first) + Bytes(second);
  }

  /** For how many seconds the host has been silent at the end. */
  function Silence(signs: seq<bool>): nat {
    var last := |signs| - 1;
    if signs == [] || signs[last] then 0 else 1 + Silence(signs[..last])
  }

  lemma {:induction false} SilenceMeans(signs: seq<bool>)
    ensures var n := Silence(signs);
            && n <= |signs| && (forall k :: |signs| - n <= k < |signs| ==> !signs[k])
            && (n < |signs| ==> signs[|signs| - n - 1])
  {
    if signs != [] {
      SilenceMeans(signs[..|signs| - 1]);
    }
  }

  /** The counter after n seconds: how long the host has been silent, up to the largest count. */
  predicate Counted(signs: seq<bool>, n: nat, start: nat, count: nat)
    requires n <= |signs|
  {
    var silent := Silence(signs[..n]);
    count == Min(if silent < n then silent else start + n, INT_MAX - 2)
  }

  lemma CountedNext(signs: seq<bool>, n: nat, start: nat, before: nat, count: nat)
    requires n < |signs| && Counted(signs, n, start, before)
    requires count == if signs[n] then 0 else if before < INT_MAX - 2 then before + 1 else before
    ensures Counted(signs, n + 1, start, count)
  {
    assert signs[..n + 1][..n] == signs[..n];
  }

  /**
   Without a sign of the host the counter grows by one a second up to the largest count, and after a sign it
   starts again from zero.
   */
  lemma CountedMeans(signs: seq<bool>, start: nat, count: nat, k: nat)
    requires Counted(signs, |signs|, start, count)
    ensures (forall j :: 0 <= j < |signs| ==> !signs[j]) ==> count == Min(start + |signs|, INT_MAX - 2)
    ensures k < |signs| && signs[k] && (forall j :: k < j < |signs| ==> !signs[j]) ==>
              count == Min(|signs| - 1 - k, INT_MAX - 2)
  {
    SilenceMeans(signs);
    assert signs[..|signs|] == signs;
  }

  /** In the middle of taking bytes from the device into a ring that had the given room. */
  predicate Took(fifo: seq<FifoByte>, taken: int, room: int, had: seq<byte>, has: seq<byte>) {
    0 <= taken <= |fifo| && taken <= room && has == had + Bytes(fifo)[..taken]
  }

  /** Either the ring is full, or the device has been found empty. */
  lemma TookAll(fifo: seq<FifoByte>, taken: nat, room: nat, had: seq<byte>, has: seq<byte>, ravail: nat)
    requires Took(fifo, taken, room, had, has)
    requires if taken == room then ravail == (if taken == 0 then 1 else fifo[taken - 1].behind)
             else taken == |fifo| && ravail == 0
    ensures taken == Min(|fifo|, room) && has == had + Bytes(fifo)[..Min(|fifo|, room)]
    ensures ravail != 0 <==> LeftBehind(fifo, room)
  {
  }

  class Uart {
    const bufLen: nat
    var timeout: nat
    var irqEnable: IrqBits
    var hostInactive: nat
    var ac: bool  // the device's AC bit: the host has given a sign of life that is not cleared yet
    var rxIn: nat
    var rxOut: nat
    var txIn: nat
    var txOut: nat
    const rxBuf: array<byte>
    const txBuf: array<byte>

    // The protocol state that the accesses so far have led to.
    ghost var now: State

    // How often the thread has let everything else happen.
    ghost var looks: nat

    /** The fields are those of the protocol state. */
    ghost predicate Coupled()
      reads this, rxBuf, txBuf
    {
      && rxBuf != txBuf && rxBuf.Length == txBuf.Length == bufLen
      && now.tx.buf == txBuf[..] && now.tx.in_ == txIn && now.tx.out == txOut
      && now.rx.buf == rxBuf[..] && now.rx.in_ == rxIn && now.rx.out == rxOut
      && now.irqEnable == irqEnable
    }

    /** All accesses so far are steps of one run of the protocol. */
    ghost predicate Valid()
      reads this, rxBuf, txBuf
    {
      Coupled() && Reachable(now)
    }

    /** No call is under way and its critical sections are behind it. */
    ghost predicate Quiet()
      reads this
    {
      && now.tx.writer == WResting && now.rx.reader == RResting && !now.tx.dirty && !now.rx.dirty
    }

    /** Takes one step of the protocol; the fields follow suit. */
    ghost method Take(step: Step)
      requires Reachable(now) && WellFormed(now) && Enabled(now, step)
      modifies `now
      ensures now == Apply(old(now), step) && Reachable(now)
    {
      ReachableExtend(now, step);
      now := Apply(now, step);
    }

    lemma Safe()
      requires Valid()
      ensures WellFormed(now) && Inv(now)
    {
      ReachableIsSafe(now);
    }

    /** Between calls, bytes that wait to be sent will raise an interrupt, and so will bytes that there is room for. */
    lemma NoWakeupLost()
      requires Valid() && Quiet()
      ensures txOut != txIn ==> now.control.we
      ensures !now.control.re ==> Full(bufLen, rxOut, rxIn)
    {
      Safe();
    }

    lemma FullRing()
      requires Valid()
      ensures Full(bufLen, txOut, txIn) ==> |now.tx.accepted| >= |now.tx.sent| + bufLen - 1
    {
      ReachableIsSafe(now);
    }

    lemma BytesWait()
      requires Valid()
      ensures rxIn != rxOut ==> |now.rx.delivered| < |now.rx.received|
    {
      ReachableIsSafe(now);
    }

    lemma AllDelivered()
      requires Valid()
      ensures rxIn == rxOut ==> now.rx.delivered == now.rx.received
    {
      ReachableIsSafe(now);
    }

    constructor (len: nat, timeoutSeconds: nat, alarmStarted: bool)
      requires 2 <= len
      ensures Valid() && Quiet() && bufLen == len && fresh(rxBuf) && fresh(txBuf)
      ensures hostInactive == 0 && irqEnable == IrqBits(true, false)
      ensures timeout == if alarmStarted then timeoutSeconds else INT_MAX
    {
      bufLen := len;
      var r, t := new byte[len], new byte[len];
      rxBuf, txBuf := r, t;
      rxIn, rxOut, txIn, txOut := 0, 0, 0, 0;
      irqEnable := IrqBits(true, false);
      hostInactive, looks := 0, 0;
      ac := *;
      // without an alarm the host counts as present for ever
      timeout := if alarmStarted then timeoutSeconds else INT_MAX;
      var s := State(Tx(t[..], 0, 0, WResting, false, [], []), Rx(r[..], 0, 0, RResting, false, [], []),
                     IrqBits(true, false), IrqBits(true, false));
      now := s;
      ReachableInitially(s);
    }

    // ------------------------------------------------------------ the device

    /** Takes the next byte from the device, if there is one; a word that carries no byte also announces none. */
    method ReadData(fifo: seq<FifoByte>) returns (data: DataWord)
      ensures data == if fifo == [] then DataWord(0, false, 0) else DataWord(fifo[0].b, true, fifo[0].behind)
    {
      if fifo == [] {
        data := DataWord(0, false, 0);
      } else {
        data := DataWord(fifo[0].b, true, fifo[0].behind);
      }
    }

    /** The host polls the device. */
    method HostSign()
      modifies `ac
      ensures ac
    {
      ac := true;
    }

    method ReadControl() returns (control: ControlWord)
      ensures control.ac == ac
    {
      control := *;
      control := control.(ac := ac);
    }

    /** Writes the interrupt bits, together with the AC bit, which clears it. */
    method WriteControl()
      requires Valid()
      modifies `now, `ac
      ensures Valid() && ThreadSideKept() && !ac && irqEnable == old(irqEnable)
      ensures now.tx == old(now.tx) && now.rx == old(now.rx)
    {
      Take(Step.WriteControl);
      ac := false;
    }

    // ------------------------------------------------------------ interrupt side

    /** What only a writing thread changes. */
    twostate predicate WriteSideKept()
      reads this, txBuf
    {
      && txIn == old(txIn) && txBuf[..] == old(txBuf[..])
      && now.tx.writer == old(now.tx.writer) && now.tx.dirty == old(now.tx.dirty)
      && now.tx.accepted == old(now.tx.accepted)
    }

    /** What only a reading thread changes. */
    twostate predicate ReadSideKept()
      reads this
    {
      && rxOut == old(rxOut)
      && now.rx.reader == old(now.rx.reader) && now.rx.dirty == old(now.rx.dirty)
      && now.rx.delivered == old(now.rx.delivered)
    }

    /** What nobody takes back: the bytes that crossed to or from the device. */
    twostate predicate HistoryKept()
      reads this
    {
      && old(now.tx.sent) <= now.tx.sent && old(now.rx.received) <= now.rx.received && old(looks) <= looks
    }

    /** More was handed over than was sent before, and enough to fill the ring. */
    twostate predicate FilledUp()
      reads this
    {
      |now.tx.accepted| >= |old(now.tx.sent)| + bufLen - 1
    }

    /** All that had come from the device before is delivered. */
    twostate predicate UsedUp()
      reads this
    {
      |now.rx.delivered| >= |old(now.rx.received)|
    }

    /** What only the timeout routine and the host change. */
    twostate predicate TimeoutSideKept()
      reads this
    {
      hostInactive == old(hostInactive) && ac == old(ac)
    }

    /** What the interrupt side leaves alone: all that belongs to the thread. */
    twostate predicate ThreadSideKept()
      reads this, txBuf
    {
      WriteSideKept() && ReadSideKept() && HistoryKept() && timeout == old(timeout)
    }

    /** What the device and the other side of the rings can notice of the interrupt routine. */
    ghost function Seen(): Traffic
      reads this, rxBuf, txBuf
      requires Coupled() && WellFormed(now)
    {
      Traffic(|now.tx.sent|, Occupied(bufLen, txOut, txIn), now.rx.received,
              bufLen - 1 - Occupied(bufLen, rxOut, rxIn), irqEnable)
    }

    /** The index n cells further on, as the driver computes it. */
    method NextIndex(index: nat, n: nat) returns (next: nat)
      requires index < bufLen && n <= bufLen
      ensures next == Advance(bufLen, index, n)
    {
      AdvanceIsRemainder(bufLen, index, n);
      next := (index + n) % bufLen;
    }

    method Store(b: byte)
      requires Valid() && !Full(bufLen, rxOut, rxIn)
      modifies `rxIn, `now, rxBuf
      ensures Valid() && ThreadSideKept() && now.tx == old(now.tx)
      ensures rxIn == Advance(bufLen, old(rxIn), 1) && irqEnable == old(irqEnable)
      ensures Occupied(bufLen, rxOut, rxIn) == old(Occupied(bufLen, rxOut, rxIn)) + 1
      ensures now.rx.received == old(now.rx.received) + [b]
    {
      rxBuf[rxIn] := b;
      rxIn := NextIndex(rxIn, 1);
      Take(StoreByte(b));
    }

    method Send()
      requires Valid() && txOut != txIn
      modifies `txOut, `now
      ensures Valid() && ThreadSideKept() && now.rx == old(now.rx)
      ensures now.tx.sent == old(now.tx.sent) + [txBuf[old(txOut)]] && irqEnable == old(irqEnable)
      ensures Occupied(bufLen, txOut, txIn) == old(Occupied(bufLen, txOut, txIn)) - 1
    {
      txOut := NextIndex(txOut, 1);
      Take(SendByte);
    }

    method TurnOffReceive()
      requires Valid() && Full(bufLen, rxOut, rxIn)
      modifies `irqEnable, `now
      ensures Valid() && ThreadSideKept() && irqEnable == old(irqEnable).(re := false)
      ensures now.tx == old(now.tx) && now.rx == old(now.rx)
    {
      irqEnable := irqEnable.(re := false);
      Take(DisableRx);
    }

    method TurnOffTransmit()
      requires Valid() && txOut == txIn
      modifies `irqEnable, `now
      ensures Valid() && ThreadSideKept() && irqEnable == old(irqEnable).(we := false)
      ensures now.rx == old(now.rx) && now.tx == old(now.tx)
    {
      irqEnable := irqEnable.(we := false);
      Take(DisableTx);
    }

    /** In the middle of taking bytes from the device. */
    ghost predicate Taking(fifo: seq<FifoByte>, taken: int, room: int, had: seq<byte>)
      reads this, rxBuf, txBuf
    {
      && Valid() && WellFormed(now)
      && Took(fifo, taken, room, had, now.rx.received) && bufLen - 1 - Occupied(bufLen, rxOut, rxIn) == room - taken
    }

    /** Takes one more byte from the device, if it has one, and returns the word that was read. */
    method TakeNext(fifo: seq<FifoByte>, taken: nat, ghost room: nat, ghost had: seq<byte>) returns (data: DataWord)
      requires Taking(fifo, taken, room, had) && !Full(bufLen, rxOut, rxIn)
      modifies `rxIn, `now, rxBuf
      ensures ThreadSideKept() && now.tx == old(now.tx) && irqEnable == old(irqEnable)
      ensures data.rvalid == (taken < |fifo|)
      ensures data.ravail == if data.rvalid then fifo[taken].behind else 0
      ensures Taking(fifo, if data.rvalid then taken + 1 else taken, room, had)
    {
      data := ReadData(fifo[taken..]);
      if data.rvalid {
        assert Bytes(fifo)[..taken + 1] == Bytes(fifo)[..taken] + [data.data];
        Store(data.data);
      }
    }

    /** Takes bytes from the device until the ring is full or a word carries no byte; returns the last word. */
    method TakeBytes(fifo: seq<FifoByte>) returns (data: DataWord)
      requires Valid()
      modifies `rxIn, `now, rxBuf
      ensures Valid() && ThreadSideKept() && now.tx == old(now.tx) && irqEnable == old(irqEnable)
      ensures var room := old(bufLen - 1 - Occupied(bufLen, rxOut, rxIn));
              && now.rx.received == old(now.rx.received) + Bytes(fifo)[..Min(|fifo|, room)]
              && bufLen - 1 - Occupied(bufLen, rxOut, rxIn) == room - Min(|fifo|, room)
              && (data.ravail != 0 <==> LeftBehind(fifo, room))
    {
      data := DataWord(0, false, 1);
      var taken := 0;  // how far the device has got
      ghost var had, room: nat := now.rx.received, bufLen - 1 - Occupied(bufLen, rxOut, rxIn);
      Safe();
      while true
        invariant Taking(fifo, taken, room, had)
        invariant ThreadSideKept() && now.tx == old(now.tx) && irqEnable == old(irqEnable)
        invariant data.ravail == if taken == 0 then 1 else fifo[taken - 1].behind
        decreases room - taken
      {
        var next := NextIndex(rxIn, 1);
        if next == rxOut {
          break;
        }
        data := TakeNext(fifo, taken, room, had);
        if !data.rvalid {
          break;
        }
        taken := taken + 1;
      }
      TookAll(fifo, taken, room, had, now.rx.received, data.ravail);
    }

    /** Moves bytes from the device into the ring until either side gives out. */
    method DrainDevice(fifo: seq<FifoByte>)
      requires Valid()
      modifies this, rxBuf
      ensures Valid() && ThreadSideKept() && TimeoutSideKept()
      ensures now.tx == old(now.tx) && irqEnable.we == old(irqEnable.we)
      ensures var room := old(bufLen - 1 - Occupied(bufLen, rxOut, rxIn));
              && now.rx.received == old(now.rx.received) + Bytes(fifo)[..Min(|fifo|, room)]
              && bufLen - 1 - Occupied(bufLen, rxOut, rxIn) == room - Min(|fifo|, room)
              // receive interrupts go off exactly when bytes are left in the device
              && irqEnable.re == (old(irqEnable.re) && !LeftBehind(fifo, room))
    {
      var data := TakeBytes(fifo);
      if data.ravail != 0 {
        TurnOffReceive();
      }
    }

    /** Moves bytes from the ring into the device until either side gives out. */
    method FillDevice(wspace: nat)
      requires Valid()
      modifies this
      ensures Valid() && ThreadSideKept() && TimeoutSideKept()
      ensures now.rx == old(now.rx) && irqEnable.re == old(irqEnable.re)
      ensures var waiting := old(Occupied(bufLen, txOut, txIn));
              && |now.tx.sent| == |old(now.tx.sent)| + Min(wspace, waiting)
              && Occupied(bufLen, txOut, txIn) == waiting - Min(wspace, waiting)
              // transmit interrupts go off exactly when there was room for more
              && irqEnable.we == (old(irqEnable.we) && wspace <= waiting)
    {
      var space := wspace;
      while space > 0 && txOut != txIn
        invariant Valid() && ThreadSideKept() && TimeoutSideKept()
        invariant now.rx == old(now.rx) && irqEnable == old(irqEnable)
        invariant 0 <= space <= wspace && |now.tx.sent| == |old(now.tx.sent)| + (wspace - space)
        invariant Occupied(bufLen, txOut, txIn) == old(Occupied(bufLen, txOut, txIn)) - (wspace - space)
        decreases space
      {
        Send();
        space := space - 1;
      }
      if space > 0 {
        TurnOffTransmit();
      }
    }

    /** One turn of the interrupt routine. */
    method ServeTurn(turn: Turn)
      requires Valid()
      modifies this, rxBuf
      ensures Valid() && ThreadSideKept() && TimeoutSideKept()
      ensures var space := if turn.control.wi then turn.control.wspace else 0;
              Sending(old(Seen()), Seen(), space)
      ensures var fifo := if turn.control.ri then turn.fifo else [];
              Receiving(old(Seen()), Seen(), fifo, turn.control.ri && LeftBehind(fifo, old(Seen()).room))
    {
      if turn.control.ri {
        DrainDevice(turn.fifo);
      }
      if turn.control.wi {
        FillDevice(turn.control.wspace);
      }
    }

    /** The same, after k turns before it. */
    method ServeNext(turns: seq<Turn>, k: nat, ghost before: Traffic)
      requires Valid() && k < |turns| && Served(turns, k, before, Seen())
      modifies this, rxBuf
      ensures Valid() && ThreadSideKept() && TimeoutSideKept()
      ensures Served(turns, k + 1, before, Seen())
    {
      ServeTurn(turns[k]);
      ServedNext(turns, k, before, old(Seen()), Seen());
    }

    /** The loop of the interrupt routine: turn by turn, until none of the two interrupts is pending. */
    method ServeAll(turns: seq<Turn>)
      requires Valid()
      modifies this, rxBuf
      ensures Valid() && ThreadSideKept() && TimeoutSideKept()
      ensures Served(turns, TurnsMade(turns), old(Seen()), Seen())
    {
      var k := 0;
      ghost var before := Seen();
      while k < |turns|
        invariant k <= |turns| && Makes(turns, k)
        invariant Valid() && ThreadSideKept() && TimeoutSideKept()
        invariant Served(turns, k, before, Seen())
      {
        MakesNext(turns, k);
        if !turns[k].control.ri && !turns[k].control.wi {
          break;
        }
        ServeNext(turns, k, before);
        k := k + 1;
      }
    }

    /**
     The interrupt routine.  What waits goes out as far as there is room in the device, and what the device
     has comes in as far as there is room in the ring; the interrupt of a side goes off exactly when that side
     has no more to do.
     */
    method Irq(turns: seq<Turn>)
      requires Valid()
      modifies this, rxBuf
      ensures Valid() && ThreadSideKept() && TimeoutSideKept()
      ensures var space, waiting := Room(turns[..TurnsMade(turns)]), old(Occupied(bufLen, txOut, txIn));
              && |now.tx.sent| == |old(now.tx.sent)| + Min(space, waiting)
              && irqEnable.we == (old(irqEnable.we) && space <= waiting)
      ensures var all, room := Offered(turns[..TurnsMade(turns)]), old(bufLen - 1 - Occupied(bufLen, rxOut, rxIn));
              now.rx.received == old(now.rx.received) + Bytes(all)[..Min(|all|, room)]
      ensures irqEnable.re == (old(irqEnable.re) && !SomeLeftBehind(turns, TurnsMade(turns), old(Seen()).room))
    {
      ServeAll(turns);
    }

    /** The interrupt routine, whatever it meets. */
    method AnyIrq()
      requires Valid()
      modifies this, rxBuf
      ensures Valid() && ThreadSideKept() && TimeoutSideKept()
    {
      var turns: seq<Turn> := *;
      Irq(turns);
    }

    /** The timeout routine, called every second: it counts the seconds in which the host gave no sign. */
    method Timeout()
      requires Valid()
      modifies this
      ensures Valid() && ThreadSideKept() && !ac
      ensures now.tx == old(now.tx) && now.rx == old(now.rx) && irqEnable == old(irqEnable)
      ensures old(ac) ==> hostInactive == 0
      ensures !old(ac) ==>
                hostInactive == if old(hostInactive) < INT_MAX - 2 then old(hostInactive) + 1 else old(hostInactive)
    {
      var control := ReadControl();
      if control.ac {
        WriteControl();
        hostInactive := 0;
      } else if hostInactive < INT_MAX - 2 {
        hostInactive := hostInactive + 1;
      }
    }

    /** One second, in which the host may give a sign, and the timeout routine at its end. */
    method NextSecond(signs: seq<bool>, i: nat, ghost start: nat)
      requires Valid() && !ac && i < |signs| && Counted(signs, i, start, hostInactive)
      modifies this, rxBuf
      ensures Valid() && ThreadSideKept() && !ac && Counted(signs, i + 1, start, hostInactive)
    {
      if signs[i] {
        HostSign();
      }
      AnyIrq();
      Timeout();
      CountedNext(signs, i, start, old(hostInactive), hostInactive);
    }

    /** As many seconds as there are elements, each of them telling whether the host gives a sign in it. */
    method Seconds(signs: seq<bool>)
      requires Valid() && !ac && hostInactive <= INT_MAX - 2
      modifies this, rxBuf
      ensures Valid() && ThreadSideKept() && !ac
      ensures Counted(signs, |signs|, old(hostInactive), hostInactive)
    {
      for i := 0 to |signs|
        invariant Valid() && ThreadSideKept() && !ac && Counted(signs, i, old(hostInactive), hostInactive)
      {
        NextSecond(signs, i, old(hostInactive));
      }
    }

    /** Anything that can happen between two accesses of the thread. */
    method Interrupts()
      requires Valid()
      modifies this, rxBuf
      ensures Valid() && ThreadSideKept() && looks > old(looks)
    {
      looks := looks + 1;
      var events: nat := *;
      while events > 0
        invariant Valid() && ThreadSideKept() && looks > old(looks)
      {
        var isSign: bool, isTick: bool := *, *;
        if isSign {
          HostSign();
        } else if isTick {
          Timeout();
        } else {
          AnyIrq();
        }
        events := events - 1;
      }
    }

    // ------------------------------------------------------------ write

    /** Copies the chosen bytes into the free cells from in_ on, one at a time. */
    method CopyIntoRing(in_: nat, src: seq<byte>)
      requires Valid() && now.tx.writer == WCopying(in_, src, 0)
      modifies this, rxBuf, txBuf
      ensures Valid() && ReadSideKept() && HistoryKept() && timeout == old(timeout)
      ensures now.tx.writer == WCopying(in_, src, |src|)
      ensures txIn == old(txIn) && now.tx.dirty == old(now.tx.dirty)
      ensures now.tx.accepted == old(now.tx.accepted)
    {
      var k := 0;
      while k < |src|
        invariant 0 <= k <= |src| && Valid() && ReadSideKept() && HistoryKept()
        invariant now.tx.writer == WCopying(in_, src, k) && timeout == old(timeout)
        invariant txIn == old(txIn) && now.tx.dirty == old(now.tx.dirty)
        invariant now.tx.accepted == old(now.tx.accepted)
      {
        txBuf[in_ + k] := src[k];
        Take(CopyIn);
        k := k + 1;
        Interrupts();
      }
    }

    /** Moves the write index over the bytes just copied. */
    method Publish(in_: nat, src: seq<byte>)
      requires Valid() && now.tx.writer == WCopying(in_, src, |src|)
      modifies `txIn, `now
      ensures Valid() && ReadSideKept() && HistoryKept()
      ensures now.tx.writer == WResting && now.tx.accepted == old(now.tx.accepted) + src
    {
      txIn := NextIndex(in_, |src|);
      Take(PublishTxIn);
    }

    /** How many bytes fit between the two indices without wrapping, but not more than there are. */
    method RoomBetween(in_: nat, out: nat, limit: nat) returns (n: nat)
      requires in_ < bufLen && out < bufLen
      ensures n == Min(WriteRoom(bufLen, in_, out), limit)
    {
      if in_ < out {
        n := out - 1 - in_;
      } else if out > 0 {
        n := bufLen - in_;
      } else {
        n := bufLen - 1 - in_;
      }
      if n > limit {
        n := limit;
      }
    }

    /** Works out from the two indices what to copy next; none of it when there is no room. */
    method ChooseChunk(data: seq<byte>) returns (in_: nat, out: nat, src: seq<byte>)
      requires Valid() && now.tx.writer == WResting && data != []
      modifies this, rxBuf
      ensures Valid() && ReadSideKept() && HistoryKept() && timeout == old(timeout)
      ensures src <= data
      ensures now.tx.writer == if src == [] then WResting else WCopying(in_, src, 0)
      ensures now.tx.accepted == old(now.tx.accepted)
      ensures src == [] ==> FilledUp()
    {
      in_ := txIn;
      Take(ReadTxIn);
      Interrupts();
      out := txOut;
      FullRing();
      var n := RoomBetween(in_, out, |data|);
      src := data[..n];
      Take(ReadTxOut(src));
    }

    /** Copies a chunk that fits, and publishes it. */
    method StoreChunk(in_: nat, src: seq<byte>)
      requires Valid() && now.tx.writer == WCopying(in_, src, 0)
      modifies this, rxBuf, txBuf
      ensures Valid() && ReadSideKept() && HistoryKept() && timeout == old(timeout)
      ensures now.tx.writer == WResting && now.tx.accepted == old(now.tx.accepted) + src
    {
      CopyIntoRing(in_, src);
      Publish(in_, src);
      Interrupts();
    }

    /** Copies one contiguous chunk, if there is room for any of it. */
    method FillChunk(data: seq<byte>) returns (n: nat, out: nat)
      requires Valid() && now.tx.writer == WResting && data != []
      modifies this, rxBuf, txBuf
      ensures Valid() && ReadSideKept() && HistoryKept() && timeout == old(timeout)
      ensures now.tx.writer == WResting
      ensures n <= |data| && now.tx.accepted == old(now.tx.accepted) + data[..n]
      ensures n == 0 ==> FilledUp()
    {
      var in_, src;
      in_, out, src := ChooseChunk(data);
      Interrupts();
      n := |src|;
      if n > 0 {
        StoreChunk(in_, src);
      }
    }

    /** Copies as many of the bytes as fit, in as many chunks as that takes. */
    method FillRing(data: seq<byte>) returns (taken: nat, out: nat)
      requires Valid() && now.tx.writer == WResting
      modifies this, rxBuf, txBuf
      ensures Valid() && ReadSideKept() && HistoryKept() && timeout == old(timeout)
      ensures now.tx.writer == WResting
      ensures taken <= |data| && now.tx.accepted == old(now.tx.accepted) + data[..taken]
      ensures taken < |data| ==> FilledUp()
    {
      taken, out := 0, 0;
      while taken < |data|
        invariant Valid() && ReadSideKept() && HistoryKept() && timeout == old(timeout)
        invariant now.tx.writer == WResting
        invariant taken <= |data| && now.tx.accepted == old(now.tx.accepted) + data[..taken]
      {
        var n;
        n, out := FillChunk(data[taken..]);
        if n == 0 {
          break;
        }
        PrefixGrows(old(now.tx.accepted), data, taken, data[taken..][..n]);
        taken := taken + n;
      }
    }

    /** The critical section at the end of a write. */
    method TurnOnTransmit()
      requires Valid() && now.tx.writer == WResting
      modifies `irqEnable, `now
      ensures Valid() && ReadSideKept() && HistoryKept()
      ensures irqEnable == old(irqEnable).(we := true)
      ensures now.tx == old(now.tx).(dirty := false)
    {
      irqEnable := irqEnable.(we := true);
      Take(EnableTx);
    }

    /** Fills the ring, and makes sure that it is sent. */
    method WriteRound(data: seq<byte>) returns (taken: nat, out: nat)
      requires Valid() && Quiet()
      modifies this, rxBuf, txBuf
      ensures Valid() && Quiet() && ReadSideKept() && HistoryKept() && timeout == old(timeout)
      ensures taken <= |data| && now.tx.accepted == old(now.tx.accepted) + data[..taken]
      ensures taken < |data| ==> FilledUp()
    {
      taken, out := FillRing(data);
      Interrupts();
      TurnOnTransmit();
      Interrupts();
    }

    /** Waits until the routine has sent something, the host is taken to be gone, or patience runs out. */
    method AwaitRoom(out: nat, patience: nat) returns (calm: nat, waiting: bool)
      requires Valid()
      modifies this, rxBuf
      ensures Valid() && ThreadSideKept()
      ensures calm <= patience && (waiting ==> calm == 0)
      ensures waiting <==> out == txOut && hostInactive < timeout
      ensures looks >= old(looks) + patience - calm
    {
      calm, waiting := patience, false;
      while !waiting && out == txOut && hostInactive < timeout
        invariant Valid() && ThreadSideKept()
        invariant calm <= patience && (waiting ==> calm == 0)
        invariant waiting ==> out == txOut && hostInactive < timeout
        invariant looks >= old(looks) + patience - calm
        decreases !waiting, calm
      {
        if calm == 0 {
          waiting := true;
        } else {
          calm := calm - 1;
          Interrupts();
        }
      }
    }

    /** After the wait: there is another round unless the host may be gone or patience has run out. */
    method TryAgain(out: nat, patience: nat) returns (again: bool, calm: nat, waiting: bool)
      requires Valid()
      modifies this, rxBuf
      ensures Valid() && ThreadSideKept()
      ensures calm <= patience && (again ==> calm < patience) && (waiting ==> calm == 0)
      ensures !again && !waiting ==> hostInactive != 0
      ensures again ==> !waiting
      ensures looks >= old(looks) + patience - calm
    {
      calm, waiting := AwaitRoom(out, patience);
      Interrupts();
      again := !waiting && hostInactive == 0;
      if again {
        if calm == 0 {
          again, waiting := false, true;
        } else {
          calm := calm - 1;
        }
      }
    }

    /**
     Writes the first "count" bytes of "data".

     "patience" is how often the waiting loop may look at the read index before this model leaves
     it: then "waiting" is returned, and the call has not ended.
     */
    method Write(data: seq<byte>, count: int, nonblock: bool, patience: nat)
      returns (rc: int, waiting: bool)
      requires Valid() && Quiet() && count <= |data|
      modifies this, rxBuf, txBuf
      ensures Valid() && Quiet() && ReadSideKept() && HistoryKept() && timeout == old(timeout)
      // what was accepted is a prefix of the data, and the result says how long a prefix
      ensures |old(now.tx.accepted)| <= |now.tx.accepted|
      ensures var n := |now.tx.accepted| - |old(now.tx.accepted)|;
              && (n == 0 || n <= count) && now.tx.accepted == old(now.tx.accepted) + data[..n]
              && (!waiting ==> rc == if n > 0 then n else if nonblock then -EWOULDBLOCK else -EIO)
              // a blocking call gives up early only on a host that is not there
              && (!waiting && !nonblock && n < count ==> hostInactive != 0)
              // a call that takes only part of the data takes at least what there was room for
              && (n < count ==> FilledUp())
      ensures waiting ==> !nonblock && looks >= old(looks) + patience
    {
      var total: nat := if count > 0 then count else 0;
      var ptr, calm := 0, patience;
      var again := true;
      waiting := false;
      while again
        invariant Valid() && Quiet() && ReadSideKept() && HistoryKept() && timeout == old(timeout)
        invariant 0 <= ptr <= total && now.tx.accepted == old(now.tx.accepted) + data[..ptr]
        invariant again ==> !waiting
        invariant waiting ==> !nonblock
        invariant !again && !waiting && !nonblock && ptr < total ==> hostInactive != 0
        invariant !again && ptr < total ==> FilledUp()
        invariant 0 <= calm <= patience && looks >= old(looks) + patience - calm && (waiting ==> calm == 0)
        decreases again, calm
      {
        var taken, out := WriteRound(data[ptr..total]);
        PrefixGrows(old(now.tx.accepted), data, ptr, data[ptr..total][..taken]);
        ptr := ptr + taken;
        again := ptr < total && !nonblock;
        if again {
          again, calm, waiting := TryAgain(out, calm);
        }
      }
      if ptr != 0 {
        rc := ptr;
      } else if nonblock {
        rc := -EWOULDBLOCK;
      } else {
        rc := -EIO;
      }
    }

    // ------------------------------------------------------------ read

    /** Copies n bytes out of the ring from cell o on, one at a time. */
    method CopyOutOfRing(buffer: array<byte>, base: nat, o: nat, n: nat)
      requires Valid() && now.rx.reader == RCopying(o, n, [])
      requires base + n <= buffer.Length && buffer != rxBuf && buffer != txBuf
      modifies this, rxBuf, buffer
      ensures Valid() && WriteSideKept() && HistoryKept() && timeout == old(timeout)
      ensures now.rx.reader == RCopying(o, n, buffer[base..base + n])
      ensures now.rx.delivered == old(now.rx.delivered) && now.rx.dirty == old(now.rx.dirty)
      ensures buffer[..base] == old(buffer[..base]) && buffer[base + n..] == old(buffer[base + n..])
    {
      var k := 0;
      while k < n
        invariant 0 <= k <= n && Valid() && WriteSideKept() && HistoryKept()
        invariant now.rx.reader == RCopying(o, n, buffer[base..base + k])
        invariant now.rx.delivered == old(now.rx.delivered) && now.rx.dirty == old(now.rx.dirty)
        invariant timeout == old(timeout)
        invariant buffer[..base] == old(buffer[..base])
        invariant buffer[base + n..] == old(buffer[base + n..])
      {
        CopyOneOut(buffer, base, o, n, k);
        k := k + 1;
        Interrupts();
      }
    }

    method CopyOneOut(buffer: array<byte>, base: nat, o: nat, n: nat, k: nat)
      requires Valid() && k < n && base + n <= buffer.Length && buffer != rxBuf && buffer != txBuf
      requires now.rx.reader == RCopying(o, n, buffer[base..base + k])
      modifies `now, buffer
      ensures Valid() && WriteSideKept() && HistoryKept()
      ensures now.rx.reader == RCopying(o, n, buffer[base..base + k + 1])
      ensures now.rx.delivered == old(now.rx.delivered) && now.rx.dirty == old(now.rx.dirty)
      ensures buffer[..] == old(buffer[..])[base + k := buffer[base + k]]
    {
      Safe();
      buffer[base + k] := rxBuf[o + k];
      Take(CopyOut);
      assert buffer[base..base + k + 1] == old(buffer[base..base + k]) + [rxBuf[o + k]];
    }

    /** Moves the read index over the bytes just copied. */
    method Release(o: nat, n: nat)
      requires Valid() && now.rx.reader.RCopying?
      requires now.rx.reader.o == o && now.rx.reader.n == n == |now.rx.reader.dst|
      modifies `rxOut, `now
      ensures Valid() && WriteSideKept() && HistoryKept()
      ensures now.rx.reader == RResting && now.rx.dirty
      ensures now.rx.delivered == old(now.rx.delivered + now.rx.reader.dst)
    {
      Safe();
      rxOut := NextIndex(o, n);
      Take(PublishRxOut);
    }

    /** How many bytes wait between the two indices without wrapping, but not more than are asked for. */
    method BytesBetween(in_: nat, o: nat, limit: nat) returns (n: nat)
      requires in_ < bufLen && o < bufLen
      ensures n == Min(ReadAvail(bufLen, in_, o), limit)
    {
      if in_ >= o {
        n := in_ - o;
      } else {
        n := bufLen - o;
      }
      if n > limit {
        n := limit;
      }
    }

    /** Works out from the two indices how many bytes to copy, and from where. */
    method ChooseBytes(space: nat) returns (in_: nat, o: nat, n: nat)
      requires Valid() && now.rx.reader == RResting && 0 < space
      modifies this, rxBuf
      ensures Valid() && WriteSideKept() && HistoryKept() && timeout == old(timeout)
      ensures n <= space
      ensures now.rx.reader == if n == 0 then RResting else RCopying(o, n, [])
      ensures now.rx.delivered == old(now.rx.delivered) && now.rx.dirty == old(now.rx.dirty)
      ensures n == 0 ==> in_ == o == rxOut && UsedUp()
    {
      AllDelivered();
      in_ := rxIn;
      Take(ReadRxIn);
      Interrupts();
      o := rxOut;
      n := BytesBetween(in_, o, space);
      Take(ReadRxOut(space));
    }

    /** Delivers one contiguous chunk, if any byte waits. */
    method DrainChunk(buffer: array<byte>, base: nat, space: nat) returns (in_: nat, n: nat)
      requires Valid() && now.rx.reader == RResting && 0 < space
      requires base + space <= buffer.Length && buffer != rxBuf && buffer != txBuf
      modifies this, rxBuf, buffer
      ensures Valid() && WriteSideKept() && HistoryKept() && timeout == old(timeout)
      ensures now.rx.reader == RResting && n <= space
      ensures now.rx.delivered == old(now.rx.delivered) + buffer[base..base + n]
      ensures now.rx.dirty == (old(now.rx.dirty) || n > 0)
      ensures buffer[..base] == old(buffer[..base]) && buffer[base + n..] == old(buffer[base + n..])
      ensures n == 0 ==> in_ == rxOut && UsedUp()
    {
      var o;
      in_, o, n := ChooseBytes(space);
      Interrupts();
      if n > 0 {
        CopyOutOfRing(buffer, base, o, n);
        Release(o, n);
        Interrupts();
      }
    }

    /** The same, behind n bytes that were delivered before. */
    method DrainMore(buffer: array<byte>, n: nat, space: nat, ghost first: seq<byte>) returns (in_: nat, m: nat)
      requires Valid() && now.rx.reader == RResting && n < space <= buffer.Length && buffer != rxBuf && buffer != txBuf
      requires now.rx.delivered == first + buffer[..n]
      modifies this, rxBuf, buffer
      ensures Valid() && WriteSideKept() && HistoryKept() && timeout == old(timeout)
      ensures now.rx.reader == RResting && n + m <= space
      ensures now.rx.delivered == first + buffer[..n + m]
      ensures now.rx.dirty == (old(now.rx.dirty) || m > 0)
      ensures buffer[n + m..] == old(buffer[n + m..])
      ensures m == 0 ==> in_ == rxOut && UsedUp()
    {
      ghost var had := buffer[..n];
      in_, m := DrainChunk(buffer, n, space - n);
      assert buffer[..n + m] == had + buffer[n..n + m];
    }

    /** Delivers as many bytes as wait and fit, in as many chunks as that takes. */
    method DrainRing(buffer: array<byte>, space: nat) returns (in_: nat, n: nat)
      requires Valid() && now.rx.reader == RResting && !now.rx.dirty && 0 < space
      requires space <= buffer.Length && buffer != rxBuf && buffer != txBuf
      modifies this, rxBuf, buffer
      ensures Valid() && WriteSideKept() && HistoryKept() && timeout == old(timeout)
      ensures now.rx.reader == RResting && n <= space
      ensures now.rx.delivered == old(now.rx.delivered) + buffer[..n]
      ensures now.rx.dirty == (n > 0)
      ensures buffer[n..] == old(buffer[n..])
      ensures n == 0 ==> in_ == rxOut
      ensures n < space ==> UsedUp()
    {
      n := 0;
      ghost var first := old(now.rx.delivered);
      while true
        invariant Valid() && WriteSideKept() && HistoryKept() && timeout == old(timeout)
        invariant now.rx.reader == RResting && n < space
        invariant now.rx.delivered == first + buffer[..n]
        invariant now.rx.dirty == (n > 0)
        invariant buffer[n..] == old(buffer[n..])
        decreases space - n
      {
        var m;
        in_, m := DrainMore(buffer, n, space, first);
        if m == 0 {
          break;
        }
        n := n + m;
        if n == space {
          break;
        }
      }
    }

    /** The critical section at the end of a read that delivered something. */
    method TurnOnReceive()
      requires Valid() && now.rx.reader == RResting
      modifies `irqEnable, `now
      ensures Valid() && WriteSideKept() && HistoryKept()
      ensures irqEnable == old(irqEnable).(re := true)
      ensures now.rx == old(now.rx).(dirty := false)
    {
      irqEnable := irqEnable.(re := true);
      Take(EnableRx);
    }

    /**
     Reads up to "space" bytes into "buffer".  "patience" and "waiting" are as for Write; "seen" is how long
     the host had been inactive when the call last looked.
     */
    method Read(buffer: array<byte>, space: int, nonblock: bool, patience: nat)
      returns (rc: int, waiting: bool, ghost seen: int)
      requires Valid() && Quiet() && space <= buffer.Length && buffer != rxBuf && buffer != txBuf
      modifies this, rxBuf, buffer
      ensures Valid() && Quiet() && WriteSideKept() && HistoryKept() && timeout == old(timeout)
      // what was delivered is what the buffer now starts with, and the result says how much
      ensures |old(now.rx.delivered)| <= |now.rx.delivered|
      ensures var n := |now.rx.delivered| - |old(now.rx.delivered)|;
              && n <= buffer.Length && (n == 0 || n <= space)
              && now.rx.delivered == old(now.rx.delivered) + buffer[..n]
              && buffer[n..] == old(buffer[n..])
              && (!waiting ==> rc == if n > 0 then n else if nonblock then -EWOULDBLOCK else -EIO)
              // a blocking call comes back with nothing only if nothing waits and the host is taken to be gone
              && (!waiting && !nonblock && n == 0 && space > 0 ==> rxIn == rxOut && seen >= timeout)
              // a call that delivers less than asked for delivers at least what was there
              && (n < space ==> UsedUp())
      ensures waiting ==> !nonblock && looks >= old(looks) + patience
    {
      var ptr, calm := 0, patience;
      var again := space > 0;
      waiting, seen := false, 0;
      while again
        invariant Valid() && WriteSideKept() && HistoryKept() && timeout == old(timeout)
        invariant now.rx.reader == RResting && now.rx.dirty == (ptr > 0)
        invariant 0 <= ptr <= buffer.Length && (ptr == 0 || ptr <= space)
        invariant now.rx.delivered == old(now.rx.delivered) + buffer[..ptr]
        invariant buffer[ptr..] == old(buffer[ptr..])
        invariant again ==> ptr == 0 && !waiting && space > 0
        invariant waiting ==> !nonblock
        invariant !again && !waiting && !nonblock && ptr == 0 && space > 0 ==> rxIn == rxOut && seen >= timeout
        invariant !again && ptr < space ==> UsedUp()
        invariant 0 <= calm <= patience && looks >= old(looks) + patience - calm && (waiting ==> calm == 0)
        decreases again, calm
      {
        var in_;
        in_, ptr := DrainRing(buffer, space);
        again := ptr == 0 && !nonblock;
        if again {
          waiting, calm := AwaitBytes(in_, calm);
          seen := hostInactive;
          BytesWait();
          Interrupts();
          AllDelivered();
          again := !waiting && in_ != rxIn;
        }
      }
      if ptr != 0 {
        Interrupts();
        TurnOnReceive();
      }
      if ptr != 0 {
        rc := ptr;
      } else if nonblock {
        rc := -EWOULDBLOCK;
      } else {
        rc := -EIO;
      }
    }

    /** Spins until the write index moves or the host is taken to be gone; one look is left for what comes next. */
    method AwaitBytes(in_: nat, patience: nat) returns (waiting: bool, calm: nat)
      requires Valid()
      modifies this, rxBuf
      ensures Valid() && ThreadSideKept()
      ensures !waiting ==> calm < patience
      ensures calm <= patience && (waiting ==> calm == 0)
      ensures !waiting ==> in_ != rxIn || hostInactive >= timeout
      ensures looks >= old(looks) + patience - calm - if waiting then 0 else 1
    {
      calm := patience;
      while calm > 0 && in_ == rxIn && hostInactive < timeout
        invariant Valid() && ThreadSideKept() && calm <= patience && looks >= old(looks) + patience - calm
      {
        Interrupts();
        calm := calm - 1;
      }
      waiting := calm == 0;
      if calm > 0 {
        calm := calm - 1;
      }
    }

    // ------------------------------------------------------------ close

    /** Waits for the transmit ring to empty, unless told not to or the host is gone. */
    method Close(nonblock: bool, patience: nat) returns (rc: int, waiting: bool)
      requires Valid() && Quiet()
      modifies this, rxBuf
      ensures Valid() && Quiet() && ThreadSideKept()
      ensures waiting ==> !nonblock && looks >= old(looks) + patience && txOut != txIn && hostInactive < timeout
      ensures !waiting && rc == 0 ==> now.tx.sent == now.tx.accepted || hostInactive >= timeout
      ensures !waiting && rc != 0 ==> nonblock && rc == -EWOULDBLOCK && now.tx.sent != now.tx.accepted
    {
      var calm := patience;
      rc, waiting := 0, false;
      while !waiting && txOut != txIn && hostInactive < timeout
        invariant Valid() && ThreadSideKept()
        invariant waiting ==> !nonblock && txOut != txIn && hostInactive < timeout && calm == 0
        invariant 0 <= calm && rc == 0 && looks >= old(looks) + patience - calm
        decreases !waiting, calm
      {
        if nonblock {
          rc := -EWOULDBLOCK;
          Safe();
          return;
        }
        if calm == 0 {
          waiting := true;
        } else {
          calm := calm - 1;
          Interrupts();
        }
      }
      Safe();
    }
  }
}
