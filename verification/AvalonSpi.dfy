/**
 The SPI master and the routine that runs one transaction on it.

 The master's registers are modelled with the chip at the other end.  A byte written to TXDATA is
 exchanged with the chip; after a while nobody can predict, the answer sits in RXDATA and RRDY is
 set.  Until then TRDY may read either way.
 */
module AvalonSpi {
  import opened Arithmetic
  import opened SerialFlash

  /** The status register: room to send, a byte to fetch, nothing on its way. */
  datatype SpiStatus = SpiStatus(trdy: bool, rrdy: bool, tmt: bool)

  function Zeros(n: nat): (z: seq<byte>)
    ensures |z| == n
  {
    seq(n, _ => 0)
  }

  /**
   One transaction, as the chip sees it: what it becomes and what it answers.  With "merge" it stays
   selected after it; with "toggle" it is not selected for the whole of it.
   */
  function Transaction(c: Chip, out: seq<byte>, merge: bool, toggle: bool := false): (Chip, seq<byte>) {
    var (c', answers) := Exchange(if toggle then c else Select(c), out);
    (if merge then c' else Deselect(c'), answers)
  }

  lemma Whole(s: seq<byte>, from: nat, to: nat)
    requires from <= to == |s|
    ensures s[..to] == s && s[from..to] == s[from..]
  {
  }

  class SpiPort {
    var chip: Chip
    var answer: byte    // on its way from the chip
    var rxdata: byte
    var rrdy: bool
    var shifting: bool
    var delay: nat            // how many more status reads will show nothing new

    constructor (c: Chip)
      ensures chip == c && Idle()
    {
      chip, answer, rxdata, rrdy, shifting, delay := c, 0, 0, false, false, 0;
    }

    /** Nothing is on its way. */
    predicate Idle()
      reads this
    {
      !shifting
    }

    /** The last bit is out, and the status has had time to say so. */
    predicate Finished()
      reads this
    {
      !shifting && delay == 0
    }

    method ForceSelect(on: bool)
      requires on || Finished()  // a chip that is let go earlier may miss the last bit
      modifies `chip
      ensures chip == if on then Select(old(chip)) else Deselect(old(chip))
    {
      chip := if on then Select(chip) else Deselect(chip);
    }

    method WriteTxData(b: byte)
      requires !shifting && !rrdy  // a second byte would overrun the first
      modifies `chip, `answer, `shifting, `delay
      ensures (chip, answer) == Shift(old(chip), b) && shifting
    {
      var r := Shift(chip, b);
      chip, answer := r.0, r.1;
      shifting := true;
      delay := *;
    }

    method ReadRxData() returns (b: byte)
      modifies `rrdy, `delay
      ensures !rrdy && b == rxdata
    {
      b := rxdata;
      rrdy := false;
      delay := *;
    }

    /** RRDY means a byte came in and was not fetched. */
    method ReadStatus() returns (s: SpiStatus)
      modifies `rxdata, `rrdy, `shifting, `delay
      ensures s.rrdy == rrdy
      ensures old(rrdy) ==> rrdy && rxdata == old(rxdata) && shifting == old(shifting)
      ensures !old(rrdy) && !old(shifting) ==> !rrdy && !shifting
      ensures !old(rrdy) && old(shifting) ==>
                if rrdy then !shifting && rxdata == answer else shifting && delay < old(delay)
      ensures s.tmt ==> Finished()
      ensures !shifting && !(s.trdy && s.tmt) ==> delay < old(delay)
    {
      if delay > 0 {
        delay := delay - 1;
        var trdy: bool := *;
        s := SpiStatus(trdy, rrdy, false);
      } else {
        if shifting && !rrdy {
          rxdata, rrdy, shifting := answer, true, false;
        }
        s := SpiStatus(true, rrdy, !shifting);
      }
    }

    // ------------------------------------------------------------ the routine

    /** The chip has answered and the answer was not fetched yet. */
    predicate Due()
      reads this
    {
      shifting || rrdy
    }

    /** The answer that is due. */
    function DueByte(): byte
      reads this
    {
      if rrdy then rxdata else answer
    }

    /** Polls until there is something to do: a byte to fetch, or room and a credit to send. */
    method AwaitReady(credits: int) returns (status: SpiStatus)
      requires credits == (if Due() then 0 else 1) && !(shifting && rrdy)
      modifies `rxdata, `rrdy, `shifting, `delay
      ensures (status.trdy && credits > 0) || status.rrdy
      ensures status.rrdy == rrdy && !(shifting && rrdy)
      ensures Due() == old(Due()) && (Due() ==> DueByte() == old(DueByte()))
    {
      while true
        invariant !(shifting && rrdy)
        invariant Due() == old(Due()) && (Due() ==> DueByte() == old(DueByte()))
        decreases !rrdy, delay
      {
        status := ReadStatus();
        if !((!status.trdy || credits == 0) && !status.rrdy) {
          break;
        }
      }
    }

    /** Spends a credit on the next byte to write or, after these, on the next zero. */
    method SendNext(write: seq<byte>, credits: int, toWrite: nat, writeZeros: nat, readIgnore: nat,
                    ghost out: seq<byte>, ghost selected: Chip, ghost sent: nat, ghost received: nat)
      returns (credits': int, toWrite': nat, writeZeros': nat)
      requires InStep(write, out, selected, sent, received, credits, toWrite, writeZeros, readIgnore)
      requires credits > 0 && out == write + Zeros(|out| - |write|)
      modifies `chip, `answer, `shifting, `delay
      ensures InStep(write, out, selected, sent + 1, received, credits', toWrite', writeZeros', readIgnore)
      ensures credits' == 0 && !rrdy
    {
      ExchangeNext(selected, out, sent);
      credits', toWrite', writeZeros' := credits - 1, toWrite, writeZeros;
      if toWrite < |write| {
        WriteTxData(write[toWrite]);
        toWrite' := toWrite + 1;
      } else if writeZeros > 0 {
        writeZeros' := writeZeros - 1;
        WriteTxData(0);
      } else {
        assert false;  // never reached: the source sets credits to -1024 here
      }
    }

    /** Takes the byte that came in: one to ignore while there are any, else one to keep. */
    method FetchNext(credits: int, readIgnore: nat, dest: array<byte>, toRead: nat, end: nat)
      returns (credits': int, readIgnore': nat, toRead': nat)
      requires rrdy && !shifting && toRead <= end <= dest.Length
      requires readIgnore > 0 || toRead < end
      modifies `rrdy, `delay, dest
      ensures !Due() && credits' == credits + 1
      ensures if readIgnore > 0 then readIgnore' == readIgnore - 1 && toRead' == toRead
              else readIgnore' == 0 && toRead' == toRead + 1
      ensures dest[..toRead'] == old(dest[..toRead]) + if readIgnore > 0 then [] else [old(rxdata)]
      ensures dest[end..] == old(dest[end..])
    {
      readIgnore', toRead' := readIgnore, toRead;
      var rx := ReadRxData();
      if readIgnore > 0 {
        readIgnore' := readIgnore - 1;
      } else {
        dest[toRead] := rx;
        toRead' := toRead + 1;
      }
      credits' := credits + 1;
    }

    /**
     The loop's bookkeeping, after "sent" bytes have gone out and "received" have been fetched:
     a credit is out exactly while one answer is due.
     */
    ghost predicate InStep(write: seq<byte>, out: seq<byte>, selected: Chip, sent: nat, received: nat,
                           credits: int, toWrite: nat, writeZeros: nat, readIgnore: nat)
      reads this
    {
      && write <= out && sent <= |out| && received < |out|
      && sent - received == 1 - credits && credits == (if Due() then 0 else 1)
      && !(shifting && rrdy)
      && toWrite == Min(|write|, sent) && writeZeros == |out| - |write| - (sent - toWrite)
      && readIgnore == |write| - Min(|write|, received)
      && chip == Exchange(selected, out[..sent]).0
      && (Due() ==> DueByte() == Exchange(selected, out).1[received])
    }

    /** One answer fetched and kept or ignored; the last one leaves nothing under way. */
    method FetchStep(write: seq<byte>, credits: int, readIgnore: nat, dest: array<byte>, toRead: nat, end: nat,
                     ghost out: seq<byte>, ghost selected: Chip, ghost sent: nat, ghost received: nat,
                     toWrite: nat, writeZeros: nat)
      returns (credits': int, readIgnore': nat, toRead': nat)
      requires InStep(write, out, selected, sent, received, credits, toWrite, writeZeros, readIgnore)
      requires rrdy && end == |out| - |write| <= dest.Length && toRead == received - Min(|write|, received)
      requires dest[..toRead] == Exchange(selected, out).1[Min(|write|, received)..received]
      modifies `rrdy, `delay, dest
      ensures !Due() && toRead' == received + 1 - Min(|write|, received + 1) <= end
      ensures readIgnore' == 0 && toRead' == end <==> received + 1 == |out|
      ensures received + 1 == |out| ==> sent == |out| && chip == Exchange(selected, out[..sent]).0
      ensures received + 1 < |out| ==>
                InStep(write, out, selected, sent, received + 1, credits', toWrite, writeZeros, readIgnore')
      ensures dest[..toRead'] == Exchange(selected, out).1[Min(|write|, received + 1)..received + 1]
      ensures dest[end..] == old(dest[end..])
    {
      credits', readIgnore', toRead' := FetchNext(credits, readIgnore, dest, toRead, end);
    }

    /** One turn of the loop: a byte goes out, or an answer comes back. */
    method ClockOnce(write: seq<byte>, credits: int, toWrite: nat, writeZeros: nat, readIgnore: nat,
                     dest: array<byte>, toRead: nat, end: nat,
                     ghost out: seq<byte>, ghost selected: Chip, ghost sent: nat, ghost received: nat)
      returns (done: bool, credits': int, toWrite': nat, writeZeros': nat, readIgnore': nat, toRead': nat,
               ghost sent': nat, ghost received': nat)
      requires InStep(write, out, selected, sent, received, credits, toWrite, writeZeros, readIgnore)
      requires out == write + Zeros(end)
      requires end == |out| - |write| <= dest.Length && toRead == received - Min(|write|, received)
      requires dest[..toRead] == Exchange(selected, out).1[Min(|write|, received)..received]
      modifies this, dest
      ensures sent <= sent' <= |out| && received <= received' <= |out| && (sent < sent' || received < received')
      ensures if done then !Due() && received' == sent' == |out| && chip == Exchange(selected, out[..sent']).0
              else InStep(write, out, selected, sent', received', credits', toWrite', writeZeros', readIgnore')
      ensures toRead' == received' - Min(|write|, received')
      ensures dest[..toRead'] == Exchange(selected, out).1[Min(|write|, received')..received']
      ensures dest[end..] == old(dest[end..])
    {
      credits', toWrite', writeZeros', readIgnore', toRead' := credits, toWrite, writeZeros, readIgnore, toRead;
      sent', received', done := sent, received, false;
      var status := AwaitReady(credits);
      if status.trdy && credits > 0 {
        credits', toWrite', writeZeros' :=
          SendNext(write, credits, toWrite, writeZeros, readIgnore, out, selected, sent, received);
        sent' := sent + 1;
      }
      if status.rrdy {
        credits', readIgnore', toRead' := FetchStep(write, credits', readIgnore, dest, toRead, end,
                                                    out, selected, sent', received, toWrite', writeZeros');
        received' := received + 1;
        done := readIgnore' == 0 && toRead' == end;
      }
    }

    /** Keeps clocking until all bytes have been sent and all answers fetched. */
    method Clock(write: seq<byte>, readLength: nat, dest: array<byte>)
      requires !Due() && 0 < |write| + readLength
      requires readLength <= dest.Length
      modifies this, dest
      ensures !Due()
      ensures var (c, answers) := Exchange(old(chip), write + Zeros(readLength));
              && chip == c
              && dest[..readLength] == answers[|write|..]
      ensures dest[readLength..] == old(dest[readLength..])
    {
      var toWrite: nat, toRead: nat := 0, 0;  // positions of write_data and read_data
      var writeZeros: nat, readIgnore: nat := readLength, |write|;
      var credits := 1;

      ghost var selected := chip;
      ghost var out := write + Zeros(readLength);
      ghost var answers := Exchange(selected, out).1;
      ghost var sent: nat, received: nat := 0, 0;  // how many bytes have gone out and come back
      assert out[..0] == [];

      while true
        invariant InStep(write, out, selected, sent, received, credits, toWrite, writeZeros, readIgnore)
        invariant toRead == received - Min(|write|, received)
        invariant dest[readLength..] == old(dest[readLength..])
        invariant dest[..toRead] == answers[Min(|write|, received)..received]
        decreases |out| - sent, |out| - received
      {
        var done;
        done, credits, toWrite, writeZeros, readIgnore, toRead, sent, received :=
          ClockOnce(write, credits, toWrite, writeZeros, readIgnore, dest, toRead, readLength,
                    out, selected, sent, received);
        if done {
          break;
        }
      }
      Whole(out, 0, sent);
      Whole(answers, |write|, received);
    }

    /**
     Sends the bytes to write, then as many zeros as there are bytes to read, and stores what
     comes back after the bytes written.  With "merge" the chip stays selected; with "toggle" it is
     selected for each byte on its own, unless it was selected before.
     */
    method Command(write: seq<byte>, readLength: nat, dest: array<byte>, merge: bool, toggle: bool := false)
      returns (rc: int)
      requires Idle() && 0 < |write| + readLength
      requires readLength <= dest.Length
      modifies this, dest
      ensures Idle() && rc == readLength
      ensures var (c, answers) := Transaction(old(chip), write + Zeros(readLength), merge, toggle);
              && chip == c
              && dest[..readLength] == answers[|write|..]
      ensures dest[readLength..] == old(dest[readLength..])
    {
      if !toggle {
        ForceSelect(true);
      }
      var stale := ReadRxData();
      Clock(write, readLength, dest);
      AwaitTransmitted();
      if !merge {
        ForceSelect(false);
      }
      rc := readLength;
    }

    /** Polls until nothing is on its way. */
    method AwaitTransmitted()
      requires !Due()
      modifies `rxdata, `rrdy, `shifting, `delay
      ensures !Due() && Finished()
    {
      while true
        invariant !Due()
        decreases delay
      {
        var status := ReadStatus();
        if status.tmt {
          break;
        }
      }
    }
  }
}
