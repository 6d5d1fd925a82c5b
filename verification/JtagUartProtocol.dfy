/**
 The protocol between a thread using the JTAG UART driver and its interrupt routine.

 A state holds the two circular buffers, the interrupt enable word and its copy in the device's
 control register, together with what the thread has in its local variables.  A step is one
 access the thread makes to shared data (one index read, one byte copied, one index published,
 one critical section) or one action of the interrupt routine.  Steps of the two sides may follow
 each other in any order, so a run of this machine is any interleaving of the two.
 */
module JtagUartProtocol {
  import opened Arithmetic
  import opened RingBuffers

  /** The two interrupt enable bits of the control register: read (RE) and write (WE). */
  datatype IrqBits = IrqBits(re: bool, we: bool)

  /** Where the thread is in the loop that fills the transmit buffer. */
  datatype Writer =
    | WResting                                   // holds no copy of an index
    | WHasIn(i: nat)                             // has read tx_in
    | WCopying(i: nat, src: seq<byte>, done: nat)  // has chosen src and copied its first "done" bytes

  /** Where the thread is in the loop that drains the receive buffer. */
  datatype Reader =
    | RResting
    | RHasIn(i: nat)                             // has read rx_in
    | RCopying(o: nat, n: nat, dst: seq<byte>)   // takes n bytes from cell o on, has got dst so far

  /** "dirty": tx_in was moved since transmit interrupts were last enabled by the thread. */
  datatype Tx = Tx(buf: seq<byte>, in_: nat, out: nat, writer: Writer, dirty: bool,
                   accepted: seq<byte>,  // all bytes taken from callers of write
                   sent: seq<byte>)      // all bytes pushed into the device

  /** "dirty": rx_out was moved since receive interrupts were last enabled by the thread. */
  datatype Rx = Rx(buf: seq<byte>, in_: nat, out: nat, reader: Reader, dirty: bool,
                   received: seq<byte>,   // all bytes taken from the device
                   delivered: seq<byte>)  // all bytes released by readers

  datatype State = State(tx: Tx, rx: Rx, irqEnable: IrqBits, control: IrqBits)

  datatype Step =
    // the thread, writing
    | ReadTxIn
    | ReadTxOut(src: seq<byte>)  // src: the bytes chosen for copying, [] when there is no room
    | CopyIn
    | PublishTxIn
    | EnableTx
    // the thread, reading
    | ReadRxIn
    | ReadRxOut(limit: nat)      // limit: how many bytes the caller still has room for
    | CopyOut
    | PublishRxOut
    | EnableRx
    // the interrupt routine
    | SendByte
    | DisableTx
    | StoreByte(b: byte)
    | DisableRx
    // the timeout routine, rewriting the control register
    | WriteControl

  /** Contiguous room the writer computes from its copies of the two indices. */
  function WriteRoom(len: nat, i: nat, out: nat): nat
    requires i < len && out < len
  {
    if i < out then out - 1 - i
    else if out > 0 then len - i
    else len - 1 - i
  }

  /** Contiguous data the reader computes from its copies of the two indices. */
  function ReadAvail(len: nat, i: nat, out: nat): nat
    requires i < len && out < len
  {
    if i >= out then i - out else len - out
  }

  predicate WellFormed(s: State) {
    && IsRing(s.tx.buf, s.tx.out, s.tx.in_)
    && IsRing(s.rx.buf, s.rx.out, s.rx.in_)
    && (s.tx.writer.WHasIn? ==> s.tx.writer.i < |s.tx.buf|)
    && (s.tx.writer.WCopying? ==> s.tx.writer.i < |s.tx.buf| && s.tx.writer.i + |s.tx.writer.src| <= |s.tx.buf|)
    && (s.rx.reader.RHasIn? ==> s.rx.reader.i < |s.rx.buf|)
    && (s.rx.reader.RCopying? ==> s.rx.reader.o < |s.rx.buf| && s.rx.reader.o + s.rx.reader.n <= |s.rx.buf|)
  }

  predicate Enabled(s: State, step: Step)
    requires WellFormed(s)
  {
    var t, r := s.tx, s.rx;
    match step
    case ReadTxIn => t.writer.WResting?
    case ReadTxOut(src) =>
      && t.writer.WHasIn?
      && |src| <= WriteRoom(|t.buf|, t.writer.i, t.out)
      && (src == [] ==> WriteRoom(|t.buf|, t.writer.i, t.out) == 0)
    case CopyIn => t.writer.WCopying? && t.writer.done < |t.writer.src|
    case PublishTxIn => t.writer.WCopying? && t.writer.done == |t.writer.src|
    case EnableTx => t.writer.WResting?
    case ReadRxIn => r.reader.RResting?
    case ReadRxOut(limit) => r.reader.RHasIn? && 0 < limit
    case CopyOut => r.reader.RCopying? && |r.reader.dst| < r.reader.n
    case PublishRxOut => r.reader.RCopying? && |r.reader.dst| == r.reader.n
    case EnableRx => r.reader.RResting?
    case SendByte => t.out != t.in_
    case DisableTx => t.out == t.in_
    case StoreByte(_) => !Full(|r.buf|, r.out, r.in_)
    case DisableRx => Full(|r.buf|, r.out, r.in_)
    case WriteControl => true
  }

  function WithIrq(s: State, word: IrqBits): State {
    s.(irqEnable := word, control := word)
  }

  function Apply(s: State, step: Step): (s': State)
    requires WellFormed(s) && Enabled(s, step)
    ensures WellFormed(s') && |s'.tx.buf| == |s.tx.buf| && |s'.rx.buf| == |s.rx.buf|
  {
    var t, r := s.tx, s.rx;
    match step
    case ReadTxIn => s.(tx := t.(writer := WHasIn(t.in_)))
    case ReadTxOut(src) =>
      s.(tx := t.(writer := if src == [] then WResting else WCopying(t.writer.i, src, 0)))
    case CopyIn =>
      var w := t.writer;
      s.(tx := t.(buf := t.buf[w.i + w.done := w.src[w.done]], writer := w.(done := w.done + 1)))
    case PublishTxIn =>
      var w := t.writer;
      s.(tx := t.(in_ := Advance(|t.buf|, w.i, |w.src|), writer := WResting, dirty := true,
                  accepted := t.accepted + w.src))
    case EnableTx => WithIrq(s, s.irqEnable.(we := true)).(tx := t.(dirty := false))
    case ReadRxIn => s.(rx := r.(reader := RHasIn(r.in_)))
    case ReadRxOut(limit) =>
      var n := Min(ReadAvail(|r.buf|, r.reader.i, r.out), limit);
      s.(rx := r.(reader := if n == 0 then RResting else RCopying(r.out, n, [])))
    case CopyOut =>
      var c := r.reader;
      s.(rx := r.(reader := c.(dst := c.dst + [r.buf[c.o + |c.dst|]])))
    case PublishRxOut =>
      var c := r.reader;
      s.(rx := r.(out := Advance(|r.buf|, c.o, c.n), reader := RResting, dirty := true,
                  delivered := r.delivered + c.dst))
    case EnableRx => WithIrq(s, s.irqEnable.(re := true)).(rx := r.(dirty := false))
    case SendByte =>
      s.(tx := t.(out := Advance(|t.buf|, t.out, 1), sent := t.sent + [t.buf[t.out]]))
    case DisableTx => WithIrq(s, s.irqEnable.(we := false))
    case StoreByte(b) =>
      s.(rx := r.(buf := r.buf[r.in_ := b], in_ := Advance(|r.buf|, r.in_, 1),
                  received := r.received + [b]))
    case DisableRx => WithIrq(s, s.irqEnable.(re := false))
    case WriteControl => s.(control := s.irqEnable)
  }

  /** The state the driver's initialisation leaves behind; buffer cells hold anything. */
  predicate Initial(s: State) {
    && WellFormed(s)
    && s.tx.in_ == s.tx.out == 0 && s.tx.writer == WResting && !s.tx.dirty
    && s.tx.accepted == s.tx.sent == []
    && s.rx.in_ == s.rx.out == 0 && s.rx.reader == RResting && !s.rx.dirty
    && s.rx.received == s.rx.delivered == []
    && s.irqEnable == s.control == IrqBits(true, false)
  }

  // ---------------------------------------------------------------- runs

  /** The steps can be taken one after the other from s0, ending in the given state. */
  ghost predicate Runs(s0: State, steps: seq<Step>, s: State)
    decreases |steps|
  {
    if steps == [] then s == s0
    else
      exists p: State :: Before(s0, steps, p) && Enabled(p, steps[|steps| - 1])
                         && s == Apply(p, steps[|steps| - 1])
  }

  ghost predicate Before(s0: State, steps: seq<Step>, p: State)
    requires steps != []
    decreases |steps|, 0
  {
    WellFormed(p) && Runs(s0, steps[..|steps| - 1], p)
  }

  lemma RunsExtend(s0: State, steps: seq<Step>, s: State, step: Step)
    requires Runs(s0, steps, s) && WellFormed(s) && Enabled(s, step)
    ensures Runs(s0, steps + [step], Apply(s, step))
  {
    var more := steps + [step];
    assert more[..|more| - 1] == steps;
    assert Before(s0, more, s);
  }

  /** Some interleaving leads here. */
  ghost predicate Reachable(s: State) {
    exists s0, steps :: Initial(s0) && Runs(s0, steps, s)
  }

  lemma ReachableInitially(s: State)
    requires Initial(s)
    ensures Reachable(s)
  {
    assert Runs(s, [], s);
  }

  lemma ReachableExtend(s: State, step: Step)
    requires Reachable(s) && WellFormed(s) && Enabled(s, step)
    ensures Reachable(Apply(s, step))
  {
    var s0, steps :| Initial(s0) && Runs(s0, steps, s);
    RunsExtend(s0, steps, s, step);
  }

  // ---------------------------------------------------------------- what every step keeps

  /** The writer's stale view is safe: what it was told is free is free. */
  ghost predicate WriterOk(t: Tx)
    requires IsRing(t.buf, t.out, t.in_)
  {
    match t.writer
    case WResting => true
    case WHasIn(i) => i == t.in_
    case WCopying(i, src, done) =>
      && i == t.in_ && 0 < |src| && done <= |src|
      && i + |src| <= |t.buf| && Occupied(|t.buf|, t.out, t.in_) + |src| < |t.buf|
      && t.buf[i..i + done] == src[..done]
  }

  /** The reader's stale view is safe: what it was told is there is there. */
  ghost predicate ReaderOk(r: Rx)
    requires IsRing(r.buf, r.out, r.in_)
  {
    match r.reader
    case RResting => true
    case RHasIn(i) =>
      i < |r.buf| && Occupied(|r.buf|, r.out, i) <= Occupied(|r.buf|, r.out, r.in_)
    case RCopying(o, n, dst) =>
      && o == r.out && 0 < n && |dst| <= n
      && o + n <= |r.buf| && n <= Occupied(|r.buf|, r.out, r.in_)
      && dst == r.buf[o..o + |dst|]
  }

  ghost predicate TxInv(t: Tx, irqEnable: IrqBits) {
    && IsRing(t.buf, t.out, t.in_)
    && WriterOk(t)
    // nothing lost, nothing invented, order kept
    && t.sent + Ring(t.buf, t.out, t.in_) == t.accepted
    // no lost wakeup
    && (t.out != t.in_ && !t.dirty ==> irqEnable.we)
  }

  ghost predicate RxInv(r: Rx, irqEnable: IrqBits) {
    && IsRing(r.buf, r.out, r.in_)
    && ReaderOk(r)
    && r.delivered + Ring(r.buf, r.out, r.in_) == r.received
    // no lost wakeup
    && (!irqEnable.re && !r.dirty ==> Full(|r.buf|, r.out, r.in_))
  }

  ghost predicate Inv(s: State) {
    && TxInv(s.tx, s.irqEnable)
    && RxInv(s.rx, s.irqEnable)
    && s.control == s.irqEnable
  }

  lemma {:induction false} InitialInv(s: State)
    requires Initial(s)
    ensures Inv(s)
  {
    assert s.tx.buf[0..0] == [] && s.rx.buf[0..0] == [];
  }

  lemma CopyInKeepsTx(s: State)
    requires Inv(s) && WellFormed(s) && Enabled(s, CopyIn)
    ensures Inv(Apply(s, CopyIn))
  {
    var t, t' := s.tx, Apply(s, CopyIn).tx;
    var w := t.writer;
    RingStoreElsewhere(t.buf, t.out, t.in_, w.i + w.done, w.src[w.done]);
    assert t'.buf[w.i..w.i + w.done + 1] == t.buf[w.i..w.i + w.done] + [w.src[w.done]];
    assert w.src[..w.done + 1] == w.src[..w.done] + [w.src[w.done]];
  }

  /** The chunk that was copied goes to the end of the ring. */
  lemma PublishAppends(t: Tx)
    requires IsRing(t.buf, t.out, t.in_) && WriterOk(t) && t.writer.WCopying? && t.writer.done == |t.writer.src|
    requires t.sent + Ring(t.buf, t.out, t.in_) == t.accepted
    ensures var w := t.writer;
            t.sent + Ring(t.buf, t.out, Advance(|t.buf|, w.i, |w.src|)) == t.accepted + w.src
  {
    var w := t.writer;
    RingAppend(t.buf, t.out, t.in_, |w.src|);
    assert w.src[..w.done] == w.src;
    assert t.sent + (Ring(t.buf, t.out, t.in_) + w.src) == t.accepted + w.src;
  }

  lemma PublishTxInKeepsTx(s: State)
    requires Inv(s) && WellFormed(s) && Enabled(s, PublishTxIn)
    ensures Inv(Apply(s, PublishTxIn))
  {
    PublishAppends(s.tx);
  }

  /** The oldest waiting byte moves from the ring to the end of what was sent. */
  lemma SendByteMovesOldest(t: Tx)
    requires IsRing(t.buf, t.out, t.in_) && t.out != t.in_
    ensures t.sent + [t.buf[t.out]] + Ring(t.buf, Advance(|t.buf|, t.out, 1), t.in_)
         == t.sent + Ring(t.buf, t.out, t.in_)
  {
    RingRemove(t.buf, t.out, t.in_, 1);
    assert t.buf[t.out..t.out + 1] == [t.buf[t.out]];
  }

  lemma SendByteKeepsTx(s: State)
    requires Inv(s) && WellFormed(s) && Enabled(s, SendByte)
    ensures Inv(Apply(s, SendByte))
  {
    var t := s.tx;
    SendByteMovesOldest(t);
    var out' := Advance(|t.buf|, t.out, 1);
    assert Occupied(|t.buf|, out', t.in_) == Occupied(|t.buf|, t.out, t.in_) - 1;
    assert Apply(s, SendByte) == s.(tx := t.(out := out', sent := t.sent + [t.buf[t.out]]));
  }

  lemma CopyOutKeepsRx(s: State)
    requires Inv(s) && WellFormed(s) && Enabled(s, CopyOut)
    ensures Inv(Apply(s, CopyOut))
  {
    var r := s.rx;
    var c := r.reader;
    assert r.buf[c.o..c.o + |c.dst| + 1] == r.buf[c.o..c.o + |c.dst|] + [r.buf[c.o + |c.dst|]];
  }

  /** The bytes that were copied leave the front of the ring. */
  lemma PublishRemoves(r: Rx)
    requires IsRing(r.buf, r.out, r.in_) && ReaderOk(r) && r.reader.RCopying? && |r.reader.dst| == r.reader.n
    requires r.delivered + Ring(r.buf, r.out, r.in_) == r.received
    ensures var c := r.reader;
            r.delivered + c.dst + Ring(r.buf, Advance(|r.buf|, c.o, c.n), r.in_) == r.received
  {
    var c := r.reader;
    RingRemove(r.buf, r.out, r.in_, c.n);
    var rest := Ring(r.buf, Advance(|r.buf|, c.o, c.n), r.in_);
    assert r.delivered + (c.dst + rest) == r.delivered + c.dst + rest;
  }

  lemma PublishRxOutKeepsRx(s: State)
    requires Inv(s) && WellFormed(s) && Enabled(s, PublishRxOut)
    ensures Inv(Apply(s, PublishRxOut))
  {
    PublishRemoves(s.rx);
  }

  /** The interrupt routine's store stays clear of the cells a reader is copying. */
  lemma StoreByteMissesReader(s: State, b: byte)
    requires Inv(s) && WellFormed(s) && Enabled(s, StoreByte(b)) && s.rx.reader.RCopying?
    ensures !(s.rx.reader.o <= s.rx.in_ < s.rx.reader.o + s.rx.reader.n)
  {
  }

  lemma StoreByteKeepsRx(s: State, b: byte)
    requires Inv(s) && WellFormed(s) && Enabled(s, StoreByte(b))
    ensures Inv(Apply(s, StoreByte(b)))
  {
    var r, r' := s.rx, Apply(s, StoreByte(b)).rx;
    RingStoreElsewhere(r.buf, r.out, r.in_, r.in_, b);
    RingAppend(r'.buf, r.out, r.in_, 1);
    assert r'.buf[r.in_..r.in_ + 1] == [b];
    assert r.delivered + (Ring(r.buf, r.out, r.in_) + [b]) == r.received + [b];
    if r.reader.RCopying? {
      StoreByteMissesReader(s, b);
      var c := r.reader;
      assert r'.buf[c.o..c.o + |c.dst|] == r.buf[c.o..c.o + |c.dst|];
    }
  }

  /** Every step of either side keeps the invariant. */
  lemma StepKeepsInv(s: State, step: Step)
    requires Inv(s) && WellFormed(s) && Enabled(s, step)
    ensures Inv(Apply(s, step))
  {
    match step
    case CopyIn => CopyInKeepsTx(s);
    case PublishTxIn => PublishTxInKeepsTx(s);
    case SendByte => SendByteKeepsTx(s);
    case CopyOut => CopyOutKeepsRx(s);
    case PublishRxOut => PublishRxOutKeepsRx(s);
    case StoreByte(b) => StoreByteKeepsRx(s, b);
    case ReadTxIn =>
    case ReadTxOut(src) =>
    case EnableTx =>
    case ReadRxIn =>
    case ReadRxOut(limit) =>
    case EnableRx =>
    case DisableTx =>
    case DisableRx =>
    case WriteControl =>
  }

  /** The main theorem: the invariant holds after every interleaving, of any length. */
  lemma {:induction false} EveryRunKeepsInv(s0: State, steps: seq<Step>, s: State)
    requires Initial(s0) && Runs(s0, steps, s)
    ensures WellFormed(s) && Inv(s)
    decreases |steps|
  {
    if steps == [] {
      InitialInv(s);
    } else {
      var last := steps[|steps| - 1];
      var p: State :| Before(s0, steps, p) && Enabled(p, last) && s == Apply(p, last);
      EveryRunKeepsInv(s0, steps[..|steps| - 1], p);
      StepKeepsInv(p, last);
    }
  }

  lemma ReachableIsSafe(s: State)
    requires Reachable(s)
    ensures WellFormed(s) && Inv(s)
  {
    var s0, steps :| Initial(s0) && Runs(s0, steps, s);
    EveryRunKeepsInv(s0, steps, s);
  }

  // ---------------------------------------------------------------- what this means for a run

  /** What was sent, followed by what waits in the ring, is what callers handed over, in order. */
  lemma TransmitLosesNothing(s: State)
    requires Reachable(s)
    ensures WellFormed(s) && s.tx.accepted == s.tx.sent + Ring(s.tx.buf, s.tx.out, s.tx.in_)
    ensures s.tx.sent <= s.tx.accepted && |s.tx.accepted| < |s.tx.sent| + |s.tx.buf|
  {
    ReachableIsSafe(s);
  }

  /** What readers got, followed by what waits in the ring, is what the device gave, in order. */
  lemma ReceiveLosesNothing(s: State)
    requires Reachable(s)
    ensures WellFormed(s) && s.rx.received == s.rx.delivered + Ring(s.rx.buf, s.rx.out, s.rx.in_)
    ensures s.rx.delivered <= s.rx.received && |s.rx.received| < |s.rx.delivered| + |s.rx.buf|
  {
    ReachableIsSafe(s);
  }

  /**
   Whenever bytes wait to be sent, the device will raise a transmit interrupt, or the writer has
   yet to reach the critical section that makes it do so.
   */
  lemma NoLostTransmitWakeup(s: State)
    requires Reachable(s)
    requires s.tx.out != s.tx.in_
    ensures s.control.we || s.tx.dirty
  {
    ReachableIsSafe(s);
  }

  /**
   Receive interrupts are off only while the ring is full, or while a reader that has made room
   has yet to reach the critical section that turns them on again.
   */
  lemma NoLostReceiveWakeup(s: State)
    requires Reachable(s)
    requires !s.control.re
    ensures s.rx.dirty || (WellFormed(s) && Full(|s.rx.buf|, s.rx.out, s.rx.in_))
  {
    ReachableIsSafe(s);
  }

  /** In no run does the interrupt routine store into a cell that is being copied out. */
  lemma StoreNeverHitsReader(s: State, b: byte)
    requires Reachable(s)
    requires WellFormed(s) && Enabled(s, StoreByte(b)) && s.rx.reader.RCopying?
    ensures !(s.rx.reader.o <= s.rx.in_ < s.rx.reader.o + s.rx.reader.n)
  {
    ReachableIsSafe(s);
    StoreByteMissesReader(s, b);
  }

  /** In no run does the writer store into a cell whose byte has yet to be sent. */
  lemma CopyNeverHitsWaitingBytes(s: State)
    requires Reachable(s)
    requires WellFormed(s) && Enabled(s, CopyIn)
    ensures var s' := Apply(s, CopyIn);
            Ring(s'.tx.buf, s.tx.out, s.tx.in_) == Ring(s.tx.buf, s.tx.out, s.tx.in_)
  {
    ReachableIsSafe(s);
    var w := s.tx.writer;
    RingStoreElsewhere(s.tx.buf, s.tx.out, s.tx.in_, w.i + w.done, w.src[w.done]);
  }
}
