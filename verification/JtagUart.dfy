/** The interrupt-driven ("fast") JTAG UART driver.

    Main code (Write, Read, Close) shares two rings with an interrupt routine.  Main code can be
    interrupted between any two accesses to shared state, so every such point calls Preempt, which
    runs any number of interrupts, one-second timeouts and device steps in any order.  The device
    and the host keep moving while the interrupt routine itself runs.

    Ghost fields record the whole history since construction, so Valid() speaks about entire runs:
    no byte is lost, duplicated or reordered in either direction, and no wakeup is lost.
 */
module JtagUart {
  import opened Basics
  import opened Ring

  const EIO := 5
  const EWOULDBLOCK := 11
  const INT_MAX := 0x7fff_ffff
  const DEFAULT_TIMEOUT := 10
  // Depths of the device's own FIFOs.
  const WRITE_DEPTH := 256
  const READ_DEPTH := 32

  /** What a caller can observe of a call: it came back, or it is still spinning. */
  datatype Outcome = Waiting | Returned(value: int)

  class Driver {
    const len: nat
    const txBuf: array<byte>
    const rxBuf: array<byte>
    var txIn: nat
    var txOut: nat
    var rxIn: nat
    var rxOut: nat
    // The two bits of irq_enable.
    var re: bool
    var we: bool
    var hostInactive: nat
    var timeout: nat

    // The device: its own copy of the enable bits, and its two FIFOs.
    var devRe: bool
    var devWe: bool
    var devTx: seq<byte>
    var devRx: seq<byte>
    // Its own conditions for an interrupt: a FIFO has passed its threshold, or a byte has been there
    // for a while.
    var rxDue: bool
    var txDue: bool

    // What the two rings hold.
    ghost var tx: seq<byte>
    ghost var rx: seq<byte>
    // History: bytes taken from writers, bytes the host has received, bytes the host has sent,
    // bytes handed to readers, and whether the host was inactive at any time since the present call, or
    // else the last one, began.
    ghost var accepted: seq<byte>
    ghost var host: seq<byte>
    ghost var arrived: seq<byte>
    ghost var returned: seq<byte>
    ghost var foundInactive: bool
    // Set while a writer (reader) has moved its index but not yet re-enabled the interrupt.
    ghost var txWindow: bool
    ghost var rxWindow: bool

    ghost predicate TxShape()
      reads this`txIn, this`txOut
    {
      0 < len == txBuf.Length && txIn < len && txOut < len
    }

    ghost predicate RxShape()
      reads this`rxIn, this`rxOut
    {
      0 < len == rxBuf.Length && rxIn < len && rxOut < len
    }

    ghost function TxRing(): (s: seq<byte>)
      requires TxShape()
      reads this`txIn, this`txOut, txBuf
      ensures |s| == if txOut <= txIn then txIn - txOut else len - txOut + txIn
    {
      Live(txBuf[..], txOut, txIn)
    }

    ghost function RxRing(): (s: seq<byte>)
      requires RxShape()
      reads this`rxIn, this`rxOut, rxBuf
      ensures |s| == if rxOut <= rxIn then rxIn - rxOut else len - rxOut + rxIn
    {
      Live(rxBuf[..], rxOut, rxIn)
    }

    /** What holds at every point where main code can be interrupted, and between calls. */
    ghost predicate Valid()
      reads this, txBuf, rxBuf
    {
      && txBuf != rxBuf && TxShape() && RxShape() && tx == TxRing() && rx == RxRing()
      && |devTx| <= WRITE_DEPTH && |devRx| <= READ_DEPTH
      && devRe == re && devWe == we
      // Conservation, in order, end to end (see Conservation).
      && InThree(accepted, host, devTx, tx)
      && InThree(arrived, returned, rx, devRx)
      // No lost wakeup.
      && (we || tx == [] || txWindow)
      && (re || |rx| == len - 1 || rxWindow)
      && (hostInactive >= timeout ==> foundInactive)
    }

    /** Valid, and no call is in progress. */
    ghost predicate Idle()
      reads this, txBuf, rxBuf
    {
      Valid() && !txWindow && !rxWindow
    }

    /** What any step at all respects: history only grows. */
    twostate predicate Onward()
      reads this, txBuf, rxBuf
    {
      Forward() && (old(foundInactive) ==> foundInactive)
    }

    /** The same across the beginning of a call. */
    twostate predicate Forward()
      reads this, txBuf, rxBuf
    {
      Valid() && |old(host)| <= |host| && old(arrived) <= arrived
    }

    /** All that an interruption can do to main code: besides, the transmit ring is at most drained
        and the receive ring at most added to.  What a method may touch at all is in its frame: an
        interruption never changes txIn, rxOut, accepted, returned or the windows. */
    twostate predicate Interrupted()
      reads this, txBuf, rxBuf
    {
      && Onward()
      && |tx| <= |old(tx)|
      && |old(rx)| <= |rx|
    }

    /** Nothing is lost, duplicated or reordered, from the writers' bytes to the host and from the
        host's bytes to the readers. */
    lemma Conservation()
      requires Valid()
      ensures accepted == host + devTx + tx && host <= accepted
      ensures arrived == returned + rx + devRx && returned <= arrived
    {
      InThreeIsConcatenation(accepted, host, devTx, tx);
      InThreeIsConcatenation(arrived, returned, rx, devRx);
    }

    lemma AllSent()
      requires Valid() && tx == []
      ensures accepted == host + devTx
    {
      Conservation();
    }

    lemma Bounds()
      requires Valid()
      ensures TxShape() && RxShape() && |tx| < len && |rx| < len && |returned| + |rx| <= |arrived|
      ensures |tx| == if txOut <= txIn then txIn - txOut else len - txOut + txIn
      ensures |rx| == if rxOut <= rxIn then rxIn - rxOut else len - rxOut + rxIn
      ensures hostInactive >= timeout ==> foundInactive
    {
    }

    /** The driver never stalls: whenever the device asserts no interrupt, what was accepted has
        reached the device (or the device is full, or holds the interrupt back), and what arrived has
        been stored (or the ring is full and waits for a reader, or the device holds it back). */
    lemma NoStall()
      requires Idle() && !Asserted()
      ensures |devTx| < WRITE_DEPTH && txDue ==> accepted == host + devTx
      ensures |rx| < len - 1 && rxDue ==> arrived == returned + rx
    {
      Conservation();
    }

    constructor (len: nat, alarmStarted: bool)
      requires 0 < len
      ensures Idle() && this.len == len
      ensures fresh(txBuf) && fresh(rxBuf)
      ensures accepted == host == arrived == returned == []
      ensures re && !we && timeout == if alarmStarted then DEFAULT_TIMEOUT else INT_MAX
    {
      this.len := len;
      txBuf := new byte[len];
      rxBuf := new byte[len];
      txIn, txOut, rxIn, rxOut := 0, 0, 0, 0;
      re, we := true, false;
      devRe, devWe := true, false;
      devTx, devRx, tx, rx := [], [], [], [];
      rxDue, txDue := false, false;
      hostInactive := 0;
      timeout := if alarmStarted then DEFAULT_TIMEOUT else INT_MAX;
      accepted, host, arrived, returned := [], [], [], [];
      foundInactive, txWindow, rxWindow := false, false, false;
      new;
      assert TxRing() == [] && RxRing() == [];
    }

    // ---------- The environment ----------

    /** The host takes one byte from the device, or sends it one, or the device's conditions for an
        interrupt change. */
    method DeviceStep()
      requires Valid()
      modifies this`devTx, this`devRx, this`rxDue, this`txDue, this`host, this`arrived
      ensures Interrupted()
      ensures |devTx| <= old(|devTx|) && old(devRx) <= devRx
    {
      hide InThree, Live, Valid;
      if
      case devTx != [] =>
        HostTakes();
      case |devRx| < READ_DEPTH =>
        var b: byte := *;
        HostSends(b);
      case true =>
        ConditionsChange();
    }

    method ConditionsChange()
      requires Valid()
      modifies this`rxDue, this`txDue
      ensures Interrupted()
    {
      hide InThree, TxRing, RxRing;
      rxDue, txDue := *, *;
    }

    method HostTakes()
      requires Valid() && devTx != []
      modifies this`devTx, this`host
      ensures Interrupted()
      ensures host == old(host) + [old(devTx)[0]] && devTx == old(devTx)[1..]
    {
      hide InThree, TxRing, RxRing;
      Moved(accepted, host, devTx, tx);
      host, devTx := host + [devTx[0]], devTx[1..];
    }

    method HostSends(b: byte)
      requires Valid() && |devRx| < READ_DEPTH
      modifies this`devRx, this`arrived
      ensures Interrupted()
      ensures arrived == old(arrived) + [b] && devRx == old(devRx) + [b]
    {
      hide InThree, TxRing, RxRing;
      Appended(arrived, returned, rx, devRx, [b]);
      arrived, devRx := arrived + [b], devRx + [b];
    }

    /** Any number of device steps. */
    method DeviceSteps()
      requires Valid()
      modifies this`devTx, this`devRx, this`rxDue, this`txDue, this`host, this`arrived
      ensures Interrupted()
      ensures |devTx| <= old(|devTx|) && old(devRx) <= devRx
    {
      var steps :| 0 <= steps;
      while steps > 0
        invariant Interrupted()
        invariant |devTx| <= old(|devTx|) && old(devRx) <= devRx
      {
        DeviceStep();
        steps := steps - 1;
      }
    }

    /** The device asserts an interrupt: RE, a byte to read and its condition, or WE, room and its
        condition. */
    ghost predicate Asserted()
      reads this`devRe, this`devWe, this`devRx, this`devTx, this`rxDue, this`txDue
    {
      (devRe && devRx != [] && rxDue) || (devWe && |devTx| < WRITE_DEPTH && txDue)
    }

    /** Reads the control register: RI and WI are the two ways in which an interrupt is asserted. */
    method ReadControl() returns (ri: bool, wi: bool, wspace: nat)
      requires Valid()
      ensures ri || wi <==> Asserted()
      ensures ri <==> re && devRx != [] && rxDue
      ensures wi <==> we && 0 < wspace && txDue
      ensures wspace == WRITE_DEPTH - |devTx|
    {
      wspace := WRITE_DEPTH - |devTx|;
      ri := devRe && devRx != [] && rxDue;
      wi := devWe && wspace > 0 && txDue;
    }

    // ---------- The interrupt routine ----------

    /** The interrupt routine.  It ends, whatever the host does meanwhile, and only when the device
        asserts no interrupt any more. */
    method Irq()
      requires Valid()
      modifies this`rxIn, this`txOut, this`re, this`we, this`devRe, this`devWe, this`devTx, this`devRx, this`rxDue, this`txDue
      modifies this`tx, this`rx, this`host, this`arrived, rxBuf
      ensures Interrupted() && !Asserted()
    {
      while true
        invariant Interrupted()
        decreases |tx| + (len - |rx|) + (if re then 1 else 0) + (if we then 1 else 0)
      {
        var more := IrqPass();
        if !more { break; }
      }
    }

    /** One pass of the interrupt routine over the control register. */
    method IrqPass() returns (more: bool)
      requires Valid()
      modifies this`rxIn, this`txOut, this`re, this`we, this`devRe, this`devWe, this`devTx, this`devRx, this`rxDue, this`txDue
      modifies this`tx, this`rx, this`host, this`arrived, rxBuf
      ensures Interrupted()
      ensures (re ==> old(re)) && (we ==> old(we))
      ensures !more ==> !Asserted()
      ensures more ==> (!re && old(re)) || (!we && old(we)) || |rx| > |old(rx)| || |tx| < |old(tx)|
    {
      hide InThree, TxRing, RxRing, Valid;
      DeviceSteps();
      var ri, wi, wspace := ReadControl();
      more := ri || wi;
      if ri { IrqReceive(); }
      if wi { IrqTransmit(wspace); }
    }

    /** Moves bytes from the device to the receive ring; it pops a byte only once a slot is free.
        If it stops because the ring is full while bytes remain, it turns RE off. */
    method IrqReceive()
      requires Valid() && re && devRx != []
      modifies this`rxIn, this`re, this`devRe, this`devTx, this`devRx, this`rxDue, this`txDue, this`host, this`arrived, this`rx, rxBuf
      ensures Interrupted()
      ensures |devTx| <= old(|devTx|)
      ensures if re then |rx| > |old(rx)| else |rx| == len - 1
    {
      hide InThree, TxRing, RxRing, Valid;
      Bounds();
      var ravail, go := true, true;
      while go
        invariant Interrupted() && re && |devTx| <= old(|devTx|)
        invariant |rx| < len && (ravail ==> devRx != [])
        invariant |rx| == |old(rx)| ==> ravail
        invariant !go && ravail ==> |rx| == len - 1
        decreases len - |rx|, go
      {
        go, ravail := ReceiveByte(ravail);
      }
      if ravail { StopReceive(); }
    }

    /** Turns RE off, in irq_enable and in the device. */
    method StopReceive()
      requires Valid() && |rx| == len - 1
      modifies this`re, this`devRe
      ensures Interrupted() && !re
    {
      hide InThree, TxRing, RxRing;
      re := false;
      devRe := false;
    }

    /** One round of the receive loop: says whether to go on, and whether bytes remain as far as the
        routine knows. */
    method ReceiveByte(known: bool) returns (go: bool, ravail: bool)
      requires Valid() && (known ==> devRx != [])
      modifies this`rxIn, this`devTx, this`devRx, this`rxDue, this`txDue, this`host, this`arrived, this`rx, rxBuf
      ensures Interrupted() && |devTx| <= old(|devTx|)
      ensures ravail ==> devRx != []
      ensures |rx| < len && (go ==> |rx| > |old(rx)|)
      ensures !go ==> rx == old(rx) && ravail == known && (ravail ==> |rx| == len - 1)
    {
      ravail := known;
      var full := RxFull();
      if full { return false, ravail; }
      DeviceSteps();
      // With RVALID clear nothing remains available.
      if devRx == [] { return false, false; }
      ravail := PopByte();
      go := true;
    }

    /** Whether advancing rx_in would make the receive ring look empty. */
    method RxFull() returns (full: bool)
      requires Valid()
      ensures full <==> |rx| == len - 1
    {
      FullTest(rxBuf[..], rxOut, rxIn);
      var next := (rxIn + 1) % len;
      full := next == rxOut;
    }

    /** Reads the data register and stores the byte; says whether more bytes remain. */
    method PopByte() returns (more: bool)
      requires Valid() && devRx != [] && |rx| < len - 1
      modifies this`rxIn, this`devRx, this`rx, rxBuf
      ensures Interrupted()
      ensures rx == old(rx) + [old(devRx)[0]]
      ensures more <==> devRx != []
    {
      hide InThree, Live;
      ghost var before := rxBuf[..];
      PublishOne(before, rxOut, rxIn, devRx[0]);
      Moved(arrived, returned, rx, devRx);
      var b := devRx[0];
      rxBuf[rxIn] := b;
      assert rxBuf[..] == before[rxIn := b];
      rxIn := (rxIn + 1) % len;
      rx, devRx := rx + [b], devRx[1..];
      more := devRx != [];
    }

    /** Moves bytes from the transmit ring into the room the control register reported; it turns WE
        off only when the ring is empty. */
    method IrqTransmit(wspace: nat)
      requires Valid() && we && 0 < wspace <= WRITE_DEPTH - |devTx|
      modifies this`txOut, this`we, this`devWe, this`devTx, this`devRx, this`rxDue, this`txDue, this`host, this`arrived, this`tx
      ensures Interrupted()
      ensures if we then |tx| < |old(tx)| else tx == []
    {
      hide InThree, TxRing, RxRing, Valid;
      var space := wspace;
      Bounds();
      while space > 0 && txOut != txIn
        invariant Interrupted() && we && (txOut == txIn <==> tx == [])
        invariant space <= WRITE_DEPTH - |devTx|
        invariant |tx| == |old(tx)| ==> space == wspace
        decreases space
      {
        DeviceSteps();
        PushByte();
        Bounds();
        space := space - 1;
      }
      if space > 0 { StopTransmit(); }
    }

    /** Turns WE off, in irq_enable and in the device. */
    method StopTransmit()
      requires Valid() && tx == []
      modifies this`we, this`devWe
      ensures Interrupted() && !we
    {
      hide InThree, TxRing, RxRing;
      we := false;
      devWe := false;
    }

    /** Writes the oldest byte of the transmit ring to the data register. */
    method PushByte()
      requires Valid() && tx != [] && |devTx| < WRITE_DEPTH
      modifies this`txOut, this`devTx, this`tx
      ensures Interrupted()
      ensures tx == old(tx)[1..] && devTx == old(devTx) + [old(tx)[0]]
    {
      hide InThree, Live;
      ReleaseOne(txBuf[..], txOut, txIn);
      Moved(accepted, host, devTx, tx);
      devTx := devTx + [txBuf[txOut]];
      txOut := (txOut + 1) % len;
      tx := tx[1..];
    }

    /** The once-a-second check for the host; `activity` is the device's bit for it. */
    method Timeout(activity: bool)
      requires Valid()
      modifies this`hostInactive, this`foundInactive
      ensures Interrupted()
      ensures activity ==> hostInactive == 0
      ensures !activity ==> hostInactive == old(hostInactive) + if old(hostInactive) < INT_MAX - 2 then 1 else 0
      ensures foundInactive <==> old(foundInactive) || hostInactive >= timeout
    {
      hide InThree, TxRing, RxRing;
      if activity {
        hostInactive := 0;
      } else if hostInactive < INT_MAX - 2 {
        hostInactive := hostInactive + 1;
      }
      foundInactive := foundInactive || hostInactive >= timeout;
    }

    /** Anything that can happen between two accesses of main code to shared state. */
    method Preempt()
      requires Valid()
      modifies this`rxIn, this`txOut, this`re, this`we, this`devRe, this`devWe, this`devTx, this`devRx, this`rxDue, this`txDue
      modifies this`tx, this`rx, this`host, this`arrived, this`hostInactive, this`foundInactive, rxBuf
      ensures Interrupted()
    {
      var events :| 0 <= events;
      while events > 0
        invariant Interrupted()
      {
        if {
          case true => Irq();
          case true =>
            var activity: bool := *;
            Timeout(activity);
          case true => DeviceStep();
        }
        events := events - 1;
      }
    }

    /** Looks at the inactivity count, interrupted before and afterwards but for the last look, after
        which the call is left as it waits. */
    method HostGone(last: bool) returns (gone: bool)
      requires Valid()
      modifies this`rxIn, this`txOut, this`re, this`we, this`devRe, this`devWe, this`devTx, this`devRx, this`rxDue, this`txDue
      modifies this`tx, this`rx, this`host, this`arrived, this`hostInactive, this`foundInactive, rxBuf
      ensures Interrupted()
      ensures gone ==> foundInactive
      ensures last ==> txOut == old(txOut) && rxIn == old(rxIn) && tx == old(tx) && rx == old(rx)
      ensures last ==> (gone <==> hostInactive >= timeout)
    {
      hide InThree, TxRing, RxRing, Valid;
      if !last { Preempt(); }
      Bounds();
      gone := hostInactive >= timeout;
      if !last { Preempt(); }
    }

    /** A call of main code begins. */
    ghost method NewCall()
      requires Idle()
      modifies this`foundInactive
      ensures Idle() && (foundInactive <==> hostInactive >= timeout)
    {
      hide InThree, TxRing, RxRing;
      foundInactive := hostInactive >= timeout;
    }

    // ---------- Main code: writing ----------

    /** Takes bytes from the caller until they are all in the transmit ring or the ring stays full.
        A negative result means nothing was taken; a positive result r means exactly the first r
        bytes were.  The wait for room is cut off after `patience` looks, so that a call observed
        while it still waits is covered too. */
    method Write(data: seq<byte>, count: int, nonblock: bool, patience: nat)
      returns (r: Outcome, ghost taken: nat)
      requires Idle() && count <= |data|
      modifies this`rxIn, this`txOut, this`re, this`we, this`devRe, this`devWe, this`devTx, this`devRx, this`rxDue, this`txDue
      modifies this`tx, this`rx, this`host, this`arrived, this`hostInactive, this`foundInactive, rxBuf
      modifies this`txIn, this`accepted, this`txWindow, txBuf
      ensures Idle() && Forward() && |old(rx)| <= |rx|
      ensures taken <= |data| && accepted == Took(old(accepted), data, 0, taken)
      // All the room there was on entry gets used.
      ensures taken >= Min(count, len - 1 - |old(tx)|)
      ensures taken <= Max(count, 0)
      // It waits only for as long as there is no room at all and the host is taken to be active.
      ensures r.Waiting? ==> !nonblock && taken < count && |tx| == len - 1 && hostInactive < timeout
      ensures r.Returned? && taken > 0 ==> r.value == taken
      ensures r.Returned? && taken == 0 ==> r.value == if nonblock then -EWOULDBLOCK else -EIO
      // A blocking call comes back short only if the host was found inactive during the call.
      ensures r.Returned? && !nonblock && taken < count ==> foundInactive
    {
      hide InThree, TxRing, RxRing, Took, Valid;
      NewCall();
      var ptr, waiting := SendAll(data, count, nonblock, patience);
      taken := ptr;
      if waiting {
        r := Waiting;
      } else if ptr != 0 {
        r := Returned(ptr);
      } else if nonblock {
        r := Returned(-EWOULDBLOCK);
      } else {
        r := Returned(-EIO);
      }
    }

    /** The outer loop of Write. */
    method SendAll(data: seq<byte>, count: int, nonblock: bool, patience: nat) returns (ptr: nat, waiting: bool)
      requires Idle() && count <= |data|
      modifies this`rxIn, this`txOut, this`re, this`we, this`devRe, this`devWe, this`devTx, this`devRx, this`rxDue, this`txDue
      modifies this`tx, this`rx, this`host, this`arrived, this`hostInactive, this`foundInactive, rxBuf
      modifies this`txIn, this`accepted, this`txWindow, txBuf
      ensures Idle() && Onward() && |old(rx)| <= |rx|
      ensures ptr <= |data| && accepted == Took(old(accepted), data, 0, ptr)
      ensures Min(count, len - 1 - |old(tx)|) <= ptr <= Max(count, 0)
      ensures waiting ==> !nonblock && ptr < count && |tx| == len - 1 && hostInactive < timeout
      ensures !waiting && !nonblock && ptr < count ==> foundInactive
    {
      hide InThree, TxRing, RxRing, Took, Valid;
      ptr, waiting := 0, false;
      var left := count;
      TookMore(accepted, data, 0, 0, 0);
      Bounds();
      while true
        invariant Idle() && Onward() && |old(rx)| <= |rx| && |tx| < len
        invariant ptr <= |data| && left == count - ptr && (ptr == 0 || left >= 0)
        invariant accepted == Took(old(accepted), data, 0, ptr)
        invariant |tx| <= |old(tx)| + ptr
        decreases left, |tx| == len - 1
      {
        var n, again;
        n, again, waiting := SendRound(data, ptr, left, nonblock, patience);
        TookMore(old(accepted), data, 0, ptr, ptr + n);
        ptr, left := ptr + n, left - n;
        if !again { break; }
      }
    }

    /** One round of the outer loop: fill the ring, start the transmitter and, if bytes are left,
        wait for room.  `again` says that there are bytes left and room for them. */
    method SendRound(data: seq<byte>, ptr: nat, left: int, nonblock: bool, patience: nat)
      returns (n: nat, again: bool, waiting: bool)
      requires Idle() && ptr <= |data| && ptr + left <= |data|
      modifies this`rxIn, this`txOut, this`re, this`we, this`devRe, this`devWe, this`devTx, this`devRx, this`rxDue, this`txDue
      modifies this`tx, this`rx, this`host, this`arrived, this`hostInactive, this`foundInactive, rxBuf
      modifies this`txIn, this`accepted, this`txWindow, txBuf
      ensures Idle() && Onward() && |old(rx)| <= |rx| && |tx| < len
      ensures n <= Max(left, 0) && accepted == Took(old(accepted), data, ptr, ptr + n)
      ensures |tx| <= |old(tx)| + n && (n < left ==> n >= len - 1 - |old(tx)|)
      ensures again ==> n < left && |tx| < len - 1
      ensures waiting ==> !again && !nonblock && n < left && |tx| == len - 1 && hostInactive < timeout
      ensures !again && !waiting && !nonblock && n < left ==> foundInactive
    {
      hide InThree, TxRing, RxRing, Took, Valid;
      var out;
      n, out := FillRing(data, ptr, left);
      StartTransmit();
      Bounds();
      again, waiting := false, false;
      if n < left && !nonblock {
        var waited := WaitForRoom(out, patience);
        Bounds();
        waiting := waited.Waiting?;
        again := !waiting && out != txOut;
      }
    }

    /** The inner loop of Write: copies contiguous pieces until nothing is left, or until the ring is
        full as seen through `out`, the last value read of tx_out. */
    method FillRing(data: seq<byte>, ptr: nat, count: int) returns (n: nat, out: nat)
      requires Valid() && ptr <= |data| && ptr + count <= |data|
      modifies this`rxIn, this`txOut, this`re, this`we, this`devRe, this`devWe, this`devTx, this`devRx, this`rxDue, this`txDue
      modifies this`tx, this`rx, this`host, this`arrived, this`hostInactive, this`foundInactive, rxBuf
      modifies this`txIn, this`accepted, this`txWindow, txBuf
      ensures Onward() && |old(rx)| <= |rx|
      ensures n <= Max(count, 0) && accepted == Took(old(accepted), data, ptr, ptr + n)
      ensures |tx| <= |old(tx)| + n
      ensures n < count ==> out < len && FreeRun(len, txIn, out) == 0 && n >= len - 1 - |old(tx)|
    {
      hide InThree, TxRing, RxRing, Took, Valid;
      n, out := 0, 0;
      TookMore(accepted, data, ptr, ptr, ptr);
      while n < count
        invariant Onward() && |old(rx)| <= |rx|
        invariant n <= Max(count, 0) && accepted == Took(old(accepted), data, ptr, ptr + n)
        invariant |tx| <= |old(tx)| + n
      {
        var room;
        room, out := MeasureRoom();
        if room == 0 { break; }
        if room > count - n { room := count - n; }
        TookMore(old(accepted), data, ptr, ptr + n, ptr + n + room);
        CopyPiece(data[ptr + n..ptr + n + room]);
        n := n + room;
      }
    }

    /** Reads both transmit indices, interrupted in between and afterwards: however stale `out` is by
        then, the piece it allows is still free. */
    method MeasureRoom() returns (room: nat, out: nat)
      requires Valid()
      modifies this`rxIn, this`txOut, this`re, this`we, this`devRe, this`devWe, this`devTx, this`devRx, this`rxDue, this`txDue
      modifies this`tx, this`rx, this`host, this`arrived, this`hostInactive, this`foundInactive, rxBuf
      ensures Interrupted()
      ensures out < len && room == FreeRun(len, txIn, out)
      ensures txIn + room <= len && |tx| + room <= len - 1
      ensures room == 0 ==> |old(tx)| == len - 1
    {
      var start := txIn;
      Preempt();
      out := txOut;
      room := FreeRun(len, start, out);
      FreeRunIsSafe(txBuf[..], out, start);
      Preempt();
    }

    /** The byte-by-byte copy of one piece into the free part of the ring, interrupted after every
        byte, and then the single store to tx_in that publishes it. */
    method CopyPiece(piece: seq<byte>)
      requires Valid() && txIn + |piece| <= len && |tx| + |piece| <= len - 1
      modifies this`rxIn, this`txOut, this`re, this`we, this`devRe, this`devWe, this`devTx, this`devRx, this`rxDue, this`txDue
      modifies this`tx, this`rx, this`host, this`arrived, this`hostInactive, this`foundInactive, rxBuf
      modifies this`txIn, this`accepted, this`txWindow, txBuf
      ensures Onward() && |old(rx)| <= |rx|
      ensures accepted == old(accepted) + piece
      ensures |tx| <= |old(tx)| + |piece|
    {
      hide InThree, TxRing, RxRing, Valid;
      Bounds();
      var k := 0;
      while k < |piece|
        invariant k <= |piece| && Interrupted() && txIn == old(txIn) && accepted == old(accepted)
        invariant forall j :: 0 <= j < k ==> txBuf[txIn + j] == piece[j]
      {
        StoreAhead(k, piece[k]);
        k := k + 1;
        Preempt();
      }
      PublishPiece(piece);
    }

    /** Stores one byte of a piece that is not published yet. */
    method StoreAhead(k: nat, b: byte)
      requires Valid() && txIn + k < len && |tx| + k < len - 1
      modifies txBuf
      ensures Valid()
      ensures txBuf[..] == old(txBuf[..])[txIn + k := b]
    {
      StoreFree(txBuf[..], txOut, txIn, k, b);
      txBuf[txIn + k] := b;
      assert txBuf[..] == old(txBuf[..])[txIn + k := b];
    }

    /** The single store to tx_in that makes a stored piece visible to the interrupt routine. */
    method PublishPiece(piece: seq<byte>)
      requires Valid() && txIn + |piece| <= len && |tx| + |piece| <= len - 1
      requires forall j :: 0 <= j < |piece| ==> txBuf[txIn + j] == piece[j]
      modifies this`txIn, this`tx, this`accepted, this`txWindow
      ensures Valid()
      ensures accepted == old(accepted) + piece && tx == old(tx) + piece
    {
      hide InThree, Live;
      Publish(txBuf[..], txOut, txIn, piece);
      Appended(accepted, host, devTx, tx, piece);
      txIn := (txIn + |piece|) % len;
      accepted, tx, txWindow := accepted + piece, tx + piece, true;
    }

    /** Kicks the interrupt routine, which may run right before and right afterwards. */
    method StartTransmit()
      requires Valid()
      modifies this`rxIn, this`txOut, this`re, this`we, this`devRe, this`devWe, this`devTx, this`devRx, this`rxDue, this`txDue
      modifies this`tx, this`rx, this`host, this`arrived, this`hostInactive, this`foundInactive, this`txWindow, rxBuf
      ensures Interrupted() && !txWindow
    {
      hide InThree, TxRing, RxRing, Valid;
      Preempt();
      KickTransmit();
      Preempt();
    }

    /** With interrupts disabled: sets WE in irq_enable and in the device. */
    method KickTransmit()
      requires Valid()
      modifies this`we, this`devWe, this`txWindow
      ensures Interrupted() && we && !txWindow
    {
      we := true;
      devWe := true;
      txWindow := false;
    }

    /** Spins until the interrupt routine has taken something since `out` was read, or the host has
        been inactive for too long. */
    method WaitForRoom(out: nat, patience: nat) returns (waited: Outcome)
      requires Valid() && out < len && FreeRun(len, txIn, out) == 0
      modifies this`rxIn, this`txOut, this`re, this`we, this`devRe, this`devWe, this`devTx, this`devRx, this`rxDue, this`txDue
      modifies this`tx, this`rx, this`host, this`arrived, this`hostInactive, this`foundInactive, rxBuf
      ensures Interrupted()
      ensures txOut == out <==> |tx| == len - 1
      ensures waited.Returned? && txOut == out ==> foundInactive
      ensures waited.Waiting? ==> txOut == out && hostInactive < timeout
    {
      hide InThree, TxRing, RxRing, Valid;
      Bounds();
      var spins := patience;
      while out == txOut
        invariant Interrupted() && (txOut == out <==> |tx| == len - 1)
        decreases spins
      {
        var gone := HostGone(spins == 0);
        Bounds();
        if gone { break; }
        if spins == 0 { return Waiting; }
        spins := spins - 1;
      }
      Preempt();
      Bounds();
      waited := Returned(0);
    }
  
    // ---------- Main code: reading ----------

    /** Hands the caller the oldest bytes of the receive ring, waiting for the first one unless told
        not to.  A negative result means nothing was handed over. */
    method Read(buffer: array<byte>, space: int, nonblock: bool, patience: nat)
      returns (r: Outcome, ghost given: nat)
      requires Idle() && buffer != rxBuf && buffer != txBuf && space <= buffer.Length
      modifies this`rxIn, this`txOut, this`re, this`we, this`devRe, this`devWe, this`devTx, this`devRx, this`rxDue, this`txDue
      modifies this`tx, this`rx, this`host, this`arrived, this`hostInactive, this`foundInactive, rxBuf
      modifies this`rxOut, this`returned, this`rxWindow, buffer
      ensures Idle() && Forward() && |tx| <= |old(tx)|
      ensures given <= buffer.Length && returned == old(returned) + buffer[..given]
      ensures forall i :: given <= i < buffer.Length ==> buffer[i] == old(buffer[i])
      // All that was there on entry gets delivered, as far as it fits.
      ensures Min(space, |old(rx)|) <= given <= Max(space, 0)
      ensures given > 0 ==> re
      // It waits only for as long as there is nothing to read and the host is taken to be active.
      ensures r.Waiting? ==> !nonblock && given == 0 < space && rx == [] && hostInactive < timeout
      ensures r.Returned? && given > 0 ==> r.value == given
      ensures r.Returned? && given == 0 ==> r.value == if nonblock then -EWOULDBLOCK else -EIO
      // A blocking call for at least one byte comes back empty only if the host was found inactive
      // during the call.
      ensures r.Returned? && !nonblock && given == 0 < space ==> foundInactive
    {
      hide InThree, TxRing, RxRing, Valid;
      NewCall();
      r, given := ReadBytes(buffer, space, nonblock, patience);
    }

    /** The call but for its beginning. */
    method ReadBytes(buffer: array<byte>, space: int, nonblock: bool, patience: nat)
      returns (r: Outcome, ghost given: nat)
      requires Idle() && buffer != rxBuf && buffer != txBuf && space <= buffer.Length
      modifies this`rxIn, this`txOut, this`re, this`we, this`devRe, this`devWe, this`devTx, this`devRx, this`rxDue, this`txDue
      modifies this`tx, this`rx, this`host, this`arrived, this`hostInactive, this`foundInactive, rxBuf
      modifies this`rxOut, this`returned, this`rxWindow, buffer
      ensures Idle() && Onward() && |tx| <= |old(tx)|
      ensures given <= buffer.Length && returned == old(returned) + buffer[..given]
      ensures forall i :: given <= i < buffer.Length ==> buffer[i] == old(buffer[i])
      ensures Min(space, |old(rx)|) <= given <= Max(space, 0)
      ensures given > 0 ==> re
      ensures r.Waiting? ==> !nonblock && given == 0 < space && rx == [] && hostInactive < timeout
      ensures r.Returned? && given > 0 ==> r.value == given
      ensures r.Returned? && given == 0 ==> r.value == if nonblock then -EWOULDBLOCK else -EIO
      ensures r.Returned? && !nonblock && given == 0 < space ==> foundInactive
    {
      hide InThree, TxRing, RxRing, Valid;
      given := 0;
      var ptr: nat := 0;
      while space > 0
        invariant Idle() && Onward() && |tx| <= |old(tx)| && |old(rx)| <= |rx|
        invariant ptr == 0 && returned == old(returned)
        invariant forall i :: 0 <= i < buffer.Length ==> buffer[i] == old(buffer[i])
        decreases rx == []
      {
        var in_;
        ptr, in_ := DrainRing(buffer, space);
        if ptr != 0 || nonblock { break; }
        var waited := WaitForByte(in_, patience);
        if waited.Waiting? { return Waiting, 0; }
        if in_ == rxIn { break; }
      }
      given := ptr;
      if ptr != 0 {
        Preempt();
        KickReceive();
      }
      if ptr != 0 {
        r := Returned(ptr);
      } else if nonblock {
        r := Returned(-EWOULDBLOCK);
      } else {
        r := Returned(-EIO);
      }
    }

    /** The inner loop of Read: copies contiguous pieces until the caller's space is used up or the
        ring is empty as seen through `in_`, the last value read of rx_in. */
    method DrainRing(buffer: array<byte>, space: int) returns (n: nat, in_: nat)
      requires Valid() && buffer != rxBuf && buffer != txBuf && 0 < space <= buffer.Length
      modifies this`rxIn, this`txOut, this`re, this`we, this`devRe, this`devWe, this`devTx, this`devRx, this`rxDue, this`txDue
      modifies this`tx, this`rx, this`host, this`arrived, this`hostInactive, this`foundInactive, rxBuf
      modifies this`rxOut, this`returned, this`rxWindow, buffer
      ensures Onward() && |tx| <= |old(tx)|
      ensures n <= space && returned == old(returned) + buffer[..n]
      ensures forall i :: n <= i < buffer.Length ==> buffer[i] == old(buffer[i])
      ensures |rx| + n >= |old(rx)| && rxWindow == (old(rxWindow) || n > 0)
      ensures n < space ==> in_ < len && ReadyRun(len, in_, rxOut) == 0 && n >= |old(rx)|
    {
      hide InThree, TxRing, RxRing, Valid;
      n := 0;
      in_ := rxIn;
      while n < space
        invariant Onward() && |tx| <= |old(tx)|
        invariant n <= space && returned == old(returned) + buffer[..n]
        invariant forall i :: n <= i < buffer.Length ==> buffer[i] == old(buffer[i])
        invariant |rx| + n >= |old(rx)| && rxWindow == (old(rxWindow) || n > 0)
      {
        var ready;
        ready, in_ := MeasureReady();
        if ready == 0 { break; }
        if ready > space - n { ready := space - n; }
        ghost var before := buffer[..];
        TakePiece(buffer, n, ready);
        GaveMore(old(returned), before, buffer[..], n, n + ready);
        n := n + ready;
      }
    }

    /** Reads both receive indices, interrupted in between and afterwards: however stale `in_` is by
        then, what it shows as ready is there. */
    method MeasureReady() returns (ready: nat, in_: nat)
      requires Valid()
      modifies this`rxIn, this`txOut, this`re, this`we, this`devRe, this`devWe, this`devTx, this`devRx, this`rxDue, this`txDue
      modifies this`tx, this`rx, this`host, this`arrived, this`hostInactive, this`foundInactive, rxBuf
      ensures Interrupted()
      ensures in_ < len && ready == ReadyRun(len, in_, rxOut)
      ensures rxOut + ready <= len && ready <= |rx|
      ensures ready <= ReadyRun(len, rxIn, rxOut)
      ensures ready == 0 ==> old(rx) == []
    {
      in_ := rxIn;
      Preempt();
      ready := ReadyRun(len, in_, rxOut);
      Preempt();
    }

    /** The byte-by-byte copy of one piece out of the live part of the ring, interrupted after every
        byte, and then the single store to rx_out that releases it. */
    method TakePiece(buffer: array<byte>, at: nat, n: nat)
      requires Valid() && buffer != rxBuf && buffer != txBuf && at + n <= buffer.Length
      requires 0 < n <= |rx| && rxOut + n <= len
      modifies this`rxIn, this`txOut, this`re, this`we, this`devRe, this`devWe, this`devTx, this`devRx, this`rxDue, this`txDue
      modifies this`tx, this`rx, this`host, this`arrived, this`hostInactive, this`foundInactive, rxBuf
      modifies this`rxOut, this`returned, this`rxWindow, buffer
      ensures Onward() && |tx| <= |old(tx)| && |rx| + n >= |old(rx)| && rxWindow
      ensures returned == old(returned) + buffer[at..at + n]
      ensures forall i :: 0 <= i < at || at + n <= i < buffer.Length ==> buffer[i] == old(buffer[i])
    {
      hide InThree, TxRing, RxRing, Valid;
      CopyOut(buffer, at, n);
      ReleasePiece(n);
      assert arrived[|old(returned)|..|old(returned)| + n] == buffer[at..at + n];
    }

    method CopyOut(buffer: array<byte>, at: nat, n: nat)
      requires Valid() && buffer != rxBuf && buffer != txBuf && at + n <= buffer.Length
      requires n <= |rx| && rxOut + n <= len
      modifies this`rxIn, this`txOut, this`re, this`we, this`devRe, this`devWe, this`devTx, this`devRx, this`rxDue, this`txDue
      modifies this`tx, this`rx, this`host, this`arrived, this`hostInactive, this`foundInactive, rxBuf
      modifies buffer
      ensures Interrupted() && |returned| + n <= |arrived|
      ensures forall i :: at <= i < at + n ==> buffer[i] == arrived[|returned| - at + i]
      ensures forall i :: 0 <= i < at || at + n <= i < buffer.Length ==> buffer[i] == old(buffer[i])
    {
      hide InThree, TxRing, RxRing, Valid;
      Bounds();
      var k := 0;
      while k < n
        invariant k <= n && Interrupted() && |returned| + k <= |arrived|
        invariant forall i :: at <= i < at + k ==> buffer[i] == arrived[|returned| - at + i]
        invariant forall i :: 0 <= i < at || at + n <= i < buffer.Length ==> buffer[i] == old(buffer[i])
      {
        buffer[at + k] := FetchByte(k);
        k := k + 1;
        Preempt();
      }
    }

    /** Loads one byte of a piece that is not released yet. */
    method FetchByte(k: nat) returns (b: byte)
      requires Valid() && k < |rx| && rxOut + k < len
      ensures |returned| + |rx| <= |arrived| && b == arrived[|returned| + k]
    {
      Release(rxBuf[..], rxOut, rxIn, k + 1);
      b := rxBuf[rxOut + k];
      assert b == rxBuf[..][rxOut..rxOut + k + 1][k] == rx[k];
    }

    /** The single store to rx_out that gives a piece back to the interrupt routine. */
    method ReleasePiece(n: nat)
      requires Valid() && 0 < n <= |rx| && rxOut + n <= len
      modifies this`rxOut, this`rx, this`returned, this`rxWindow
      ensures Valid() && rxWindow && |rx| + n == |old(rx)|
      ensures |old(returned)| + n <= |arrived|
      ensures returned == old(returned) + arrived[|old(returned)|..|old(returned)| + n]
    {
      hide InThree, Live, TxRing;
      Release(rxBuf[..], rxOut, rxIn, n);
      Handed(arrived, returned, rx, devRx, n);
      rxOut := (rxOut + n) % len;
      returned, rx, rxWindow := returned + rx[..n], rx[n..], true;
    }

    /** With interrupts disabled: sets RE in irq_enable and in the device. */
    method KickReceive()
      requires Valid()
      modifies this`re, this`devRe, this`rxWindow
      ensures Interrupted() && re && !rxWindow
    {
      re := true;
      devRe := true;
      rxWindow := false;
    }

    /** Spins until the interrupt routine has added something since `in_` was read, or the host has
        been inactive for too long. */
    method WaitForByte(in_: nat, patience: nat) returns (waited: Outcome)
      requires Valid() && in_ < len && ReadyRun(len, in_, rxOut) == 0
      modifies this`rxIn, this`txOut, this`re, this`we, this`devRe, this`devWe, this`devTx, this`devRx, this`rxDue, this`txDue
      modifies this`tx, this`rx, this`host, this`arrived, this`hostInactive, this`foundInactive, rxBuf
      ensures Interrupted()
      ensures rxIn == in_ <==> rx == []
      ensures waited.Returned? && rxIn == in_ ==> foundInactive
      ensures waited.Waiting? ==> rxIn == in_ && hostInactive < timeout
    {
      hide InThree, TxRing, RxRing, Valid;
      Bounds();
      var spins := patience;
      while in_ == rxIn
        invariant Interrupted() && (rxIn == in_ <==> rx == [])
        decreases spins
      {
        var gone := HostGone(spins == 0);
        Bounds();
        if gone { break; }
        if spins == 0 { return Waiting; }
        spins := spins - 1;
      }
      Preempt();
      Bounds();
      waited := Returned(0);
    }

    // ---------- Main code: closing ----------

    /** Waits until the transmit ring is empty or the host has been inactive for too long. */
    method Close(nonblock: bool, patience: nat) returns (r: Outcome)
      requires Idle()
      modifies this`rxIn, this`txOut, this`re, this`we, this`devRe, this`devWe, this`devTx, this`devRx, this`rxDue, this`txDue
      modifies this`tx, this`rx, this`host, this`arrived, this`hostInactive, this`foundInactive, rxBuf
      ensures Idle() && Forward() && |tx| <= |old(tx)| && |old(rx)| <= |rx|
      ensures r.Waiting? ==> !nonblock && tx != [] && hostInactive < timeout
      ensures r.Returned? ==> r.value == 0 || (nonblock && r.value == -EWOULDBLOCK && old(tx) != [])
      // Success means that everything ever accepted is with the device or the host, unless the host
      // was found inactive during the call.
      ensures r == Returned(0) && !foundInactive ==> accepted == host + devTx
    {
      hide InThree, TxRing, RxRing, Valid;
      NewCall();
      r := Drain(nonblock, patience);
    }

    /** The call but for its beginning. */
    method Drain(nonblock: bool, patience: nat) returns (r: Outcome)
      requires Idle()
      modifies this`rxIn, this`txOut, this`re, this`we, this`devRe, this`devWe, this`devTx, this`devRx, this`rxDue, this`txDue
      modifies this`tx, this`rx, this`host, this`arrived, this`hostInactive, this`foundInactive, rxBuf
      ensures Idle() && Interrupted()
      ensures r.Waiting? ==> !nonblock && tx != [] && hostInactive < timeout
      ensures r.Returned? ==> r.value == 0 || (nonblock && r.value == -EWOULDBLOCK && old(tx) != [])
      ensures r == Returned(0) && !foundInactive ==> accepted == host + devTx
    {
      hide InThree, TxRing, RxRing, Valid;
      Bounds();
      var spins := patience;
      while txOut != txIn
        invariant Interrupted() && (txOut == txIn <==> tx == [])
        decreases spins
      {
        var gone := HostGone(spins == 0);
        Bounds();
        if gone { break; }
        if nonblock { return Returned(-EWOULDBLOCK); }
        if spins == 0 { return Waiting; }
        spins := spins - 1;
      }
      if txOut == txIn { AllSent(); }
      r := Returned(0);
    }
  }

  /** `whole` is `a`, then `b`, then `c`. */
  ghost predicate InThree<T>(whole: seq<T>, a: seq<T>, b: seq<T>, c: seq<T>) {
    && |whole| == |a| + |b| + |c|
    && whole[..|a|] == a && whole[|a|..|a| + |b|] == b && whole[|a| + |b|..] == c
  }

  lemma InThreeIsConcatenation<T>(whole: seq<T>, a: seq<T>, b: seq<T>, c: seq<T>)
    ensures InThree(whole, a, b, c) <==> whole == a + b + c
  {
    if InThree(whole, a, b, c) {
      assert whole == whole[..|a|] + whole[|a|..|a| + |b|] + whole[|a| + |b|..];
    }
  }

  /** One element moved from the front of the last part, or of the middle part, to the part before. */
  lemma Moved<T>(whole: seq<T>, a: seq<T>, b: seq<T>, c: seq<T>)
    requires InThree(whole, a, b, c)
    ensures b != [] ==> InThree(whole, a + [b[0]], b[1..], c)
    ensures c != [] ==> InThree(whole, a, b + [c[0]], c[1..])
  {
  }

  /** The first n elements of the middle part moved to the part before. */
  lemma Handed<T>(whole: seq<T>, a: seq<T>, b: seq<T>, c: seq<T>, n: nat)
    requires InThree(whole, a, b, c) && n <= |b|
    ensures InThree(whole, a + b[..n], b[n..], c)
    ensures |a| + n <= |whole| && b[..n] == whole[|a|..|a| + n]
  {
    assert b[..n] == whole[|a|..|a| + n];
    assert b[n..] == whole[|a| + n..|a| + |b|];
    assert whole[..|a| + n] == whole[..|a|] + whole[|a|..|a| + n];
  }

  lemma Appended<T>(whole: seq<T>, a: seq<T>, b: seq<T>, c: seq<T>, more: seq<T>)
    requires InThree(whole, a, b, c)
    ensures InThree(whole + more, a, b, c + more)
  {
  }

  /** The bytes accepted so far once a writer has got from index i to index j of its data. */
  ghost function Took<T>(base: seq<T>, data: seq<T>, i: nat, j: nat): seq<T>
    requires i <= j <= |data|
  {
    base + data[i..j]
  }

  /** A caller's buffer after one more piece has been copied behind what it already got. */
  lemma GaveMore<T>(base: seq<T>, before: seq<T>, after: seq<T>, i: nat, j: nat)
    requires i <= j <= |after| == |before|
    requires forall k :: 0 <= k < i ==> after[k] == before[k]
    ensures base + before[..i] + after[i..j] == base + after[..j]
  {
    assert before[..i] + after[i..j] == after[..j];
  }

  lemma TookMore<T>(base: seq<T>, data: seq<T>, i: nat, j: nat, k: nat)
    requires i <= j <= k <= |data|
    ensures Took(base, data, i, j) + data[j..k] == Took(base, data, i, k)
    ensures Took(Took(base, data, i, j), data, j, k) == Took(base, data, i, k)
    ensures Took(base, data, i, i) == base
  {
    assert data[i..j] + data[j..k] == data[i..k];
  }

  function Min(a: int, b: int): int { if a <= b then a else b }

  function Max(a: int, b: int): int { if a <= b then b else a }
}
