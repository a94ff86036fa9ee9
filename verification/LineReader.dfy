/** The resumable line reader over the ELM327 serial port.

    Its buffer, length and EOL flag persist between calls.  The port is the environment: a schedule
    says which bytes arrive, and what the timeout counter shows, each time the reader looks.
 */
module LineReader {
  import opened Basics
  import opened Framing

  const RX_BUSY := -2
  const TIMEOUT := -3
  // The timeout counter has 24 bits.
  const TICKS_MAX := 0xff_ffff

  /** What happens just before the reader looks at the port. */
  datatype Poll = Poll(arriving: seq<byte>, ticks: nat)

  /** What a caller's buffer of `size` bytes holds after a line was copied into it: as much of the line
      as leaves room for a terminator, up to its first zero byte, and zeros from there on. */
  function Copied(line: seq<byte>, size: nat): (str: seq<byte>)
    requires size > 0
    ensures |str| == size && str[size - 1] == 0
    ensures forall i :: 0 <= i < size && i < |line| && str[i] != 0 ==> str[i] == line[i]
    ensures 0 !in line ==> if |line| < size then str[..|line|] == line else str[..size - 1] == line[..size - 1]
    ensures forall i :: |line| <= i < size ==> str[i] == 0
  {
    var n := if |line| < size - 1 then |line| else size - 1;
    var m := FirstEol(line[..n], 0);
    line[..n][..m] + seq(size - m, _ => 0)
  }

  /** What the copy loop leaves behind when it stops at k. */
  lemma IsCopied(line: seq<byte>, size: nat, k: nat, str: seq<byte>)
    requires 0 < size == |str|
    requires var n := if |line| < size - 1 then |line| else size - 1;
             k <= n && 0 !in line[..k] && (k < n ==> line[k] == 0)
    requires (forall i :: 0 <= i < k ==> str[i] == line[i]) && forall i :: k <= i < size ==> str[i] == 0
    ensures str == Copied(line, size)
  {
    var n := if |line| < size - 1 then |line| else size - 1;
    assert line[..n][..k] == line[..k];
    FirstEolUnique(line[..n], 0, k);
  }

  /** A buffer that is full without an EOL is a whole line once another byte is there. */
  lemma CutFull(full: seq<byte>, rest: seq<byte>, eol: byte)
    requires |full| == LINE_MAX && eol !in full && rest != []
    ensures Cut(full + rest, eol) == LINE_MAX
  {
    var j := FirstEol(full + rest, eol);
    InPrefix(full + rest, LINE_MAX, j);
    assert (full + rest)[..LINE_MAX] == full;
  }

  /** An EOL within the buffer ends the line there. */
  lemma CutAtEol(before: seq<byte>, rest: seq<byte>, eol: byte)
    requires |before| < LINE_MAX && eol !in before
    ensures Cut(before + [eol] + rest, eol) == |before| + 1
  {
    var s := before + [eol] + rest;
    assert s[..|before|] == before;
    FirstEolUnique(s, eol, |before|);
  }

  // ---------- The port ----------

  /** What a look at the port finds. */
  datatype Seen = Byte | Late | Nothing

  /** The i-th look; after the schedule's end nothing more arrives, and the counter is at its top. */
  function PollAt(polls: seq<Poll>, i: nat): Poll {
    if i < |polls| then polls[i] else Poll([], TICKS_MAX)
  }

  /** What has arrived by the first n looks. */
  function Arrived(polls: seq<Poll>, n: nat): seq<byte> {
    if n == 0 then [] else Arrived(polls, n - 1) + PollAt(polls, n - 1).arriving
  }

  /** How many bytes the first n looks take from a port that had `backlog` bytes: one each, as long as
      there is one. */
  function Taken(backlog: nat, polls: seq<Poll>, n: nat): (t: nat)
    ensures t <= backlog + |Arrived(polls, n)|
  {
    if n == 0 then 0
    else
      var before := Taken(backlog, polls, n - 1);
      if before < backlog + |Arrived(polls, n)| then before + 1 else before
  }

  /** Look i is one a call without a line ends at: the port is empty, and the timeout has passed or the
      call does not wait. */
  predicate EndsAt(backlog: nat, polls: seq<Poll>, rxTimeout: nat, sync: bool, i: nat) {
    Taken(backlog, polls, i) == backlog + |Arrived(polls, i + 1)| && (!sync || PollAt(polls, i).ticks > rxTimeout)
  }

  lemma NoLooks(backlog: nat, polls: seq<Poll>)
    ensures Arrived(polls, 0) == [] && Taken(backlog, polls, 0) == 0
  {
  }

  lemma OneLook(backlog: nat, polls: seq<Poll>, rxTimeout: nat, sync: bool, n: nat)
    ensures Arrived(polls, n + 1) == Arrived(polls, n) + PollAt(polls, n).arriving
    ensures Taken(backlog, polls, n + 1)
         == Taken(backlog, polls, n) + if Taken(backlog, polls, n) < backlog + |Arrived(polls, n + 1)| then 1 else 0
    ensures EndsAt(backlog, polls, rxTimeout, sync, n)
       <==> Taken(backlog, polls, n) == backlog + |Arrived(polls, n + 1)| && (!sync || PollAt(polls, n).ticks > rxTimeout)
  {
  }

  class Reader {
    const eolChar: byte
    const rxTimeout: nat
    const buf: array<byte>
    var bufsz: nat
    var eol: bool
    // The port's receive FIFO.
    var fifo: seq<byte>
    // Everything that ever arrived, and every line handed out.
    ghost var arrived: seq<byte>
    ghost var lines: seq<seq<byte>>

    ghost function Pending(): seq<byte>
      requires bufsz <= buf.Length
      reads this`bufsz, this`fifo, buf
    {
      buf[..bufsz] + fifo
    }

    /** The lines handed out are the first lines of the stream; the buffer holds what has been taken
        of the next one, whole if the flag is set and without an EOL if not. */
    ghost predicate Tracking()
      reads this, buf
    {
      && buf.Length == LINE_MAX && bufsz <= LINE_MAX
      && Framed(arrived, eolChar, lines, Pending())
      && if eol then 0 < bufsz == Cut(Pending(), eolChar) else eolChar !in buf[..bufsz]
    }

    ghost predicate Valid()
      reads this, buf
    {
      Tracking() && !eol
    }

    constructor (eolChar: byte, rxTimeout: nat)
      ensures Valid() && arrived == [] && lines == [] && fresh(buf)
      ensures this.eolChar == eolChar && this.rxTimeout == rxTimeout
    {
      this.eolChar, this.rxTimeout := eolChar, rxTimeout;
      buf := new byte[LINE_MAX];
      bufsz, eol, fifo := 0, false, [];
      arrived, lines := [], [];
    }

    /** Bytes arrive in the port's FIFO. */
    method Arrive(bytes: seq<byte>)
      requires Tracking() && !eol
      modifies this`fifo, this`arrived
      ensures Tracking()
      ensures fifo == old(fifo) + bytes && arrived == old(arrived) + bytes
    {
      hide Framed, Cut;
      FramedGrows(arrived, eolChar, lines, Pending(), bytes);
      assert Pending() + bytes == buf[..bufsz] + (fifo + bytes);
      fifo, arrived := fifo + bytes, arrived + bytes;
    }

    /** Moves one byte from the port to the buffer, or finds that the buffer is full.  Either may
        complete a line. */
    method Take()
      requires Tracking() && !eol && fifo != []
      modifies this`fifo, this`bufsz, this`eol, buf
      ensures Tracking() && Pending() == old(Pending())
      ensures bufsz == old(bufsz) + if old(bufsz) == LINE_MAX then 0 else 1
      ensures old(bufsz) == LINE_MAX ==> eol
      ensures old(bufsz) < LINE_MAX ==> fifo == old(fifo)[1..]
    {
      hide Framed;
      if bufsz == LINE_MAX {
        CutFull(buf[..], fifo, eolChar);
        assert buf[..bufsz] == buf[..];
        eol := true;
      } else {
        ghost var before, taken, rest := buf[..bufsz], fifo[0], fifo[1..];
        assert before + fifo == before + [taken] + rest;
        buf[bufsz] := fifo[0];
        fifo := fifo[1..];
        if buf[bufsz] == eolChar {
          eol := true;
          CutAtEol(before, rest, eolChar);
        }
        bufsz := bufsz + 1;
        assert buf[..bufsz] == before + [taken];
      }
    }

    /** Hands out the complete line in the buffer and empties the buffer. */
    method Deliver(str: array<byte>, size: nat) returns (rc: int)
      requires Tracking() && eol && 0 < size <= str.Length && str != buf
      modifies this`eol, this`bufsz, this`lines, buf, str
      ensures Tracking() && !eol && rc == old(bufsz) > 0
      ensures lines == old(lines) + [old(buf[..bufsz])]
      ensures str[..size] == Copied(old(buf[..bufsz]), size)
    {
      hide Framed;
      ghost var line := buf[..bufsz];
      FramedNext(arrived, eolChar, lines, Pending());
      assert Pending()[..bufsz] == line && Pending()[bufsz..] == fifo;
      if bufsz > 0 {
        var n := bufsz;
        if n > size - 1 { n := size - 1; }
        CopyString(str, size, n);
      }
      eol := false;
      rc := bufsz;
      bufsz := 0;
      lines := lines + [line];
      assert buf[..0] + fifo == fifo;
      forall i | 0 <= i < buf.Length { buf[i] := 0; }
    }

    /** The memset and the strncpy of n bytes. */
    method CopyString(str: array<byte>, size: nat, n: nat)
      requires n < size <= str.Length && n <= bufsz <= buf.Length && str != buf
      requires n == if bufsz < size - 1 then bufsz else size - 1
      modifies str
      ensures str[..size] == Copied(buf[..bufsz], size)
      ensures str[size..] == old(str[size..])
    {
      hide Copied;
      forall i | 0 <= i < size { str[i] := 0; }
      var k := 0;
      while k < n && buf[k] != 0
        invariant k <= n && 0 !in buf[..k]
        invariant forall i :: 0 <= i < k ==> str[i] == buf[i]
        invariant forall i :: k <= i < size ==> str[i] == 0
        invariant str[size..] == old(str[size..])
      {
        str[k] := buf[k];
        k := k + 1;
      }
      IsCopied(buf[..bufsz], size, k, str[..size]);
    }

    /** One look at the port when no complete line is in the buffer: a byte is there, or the timeout has
        passed, or neither. */
    method Look(poll: Poll) returns (seen: Seen)
      requires Tracking() && !eol
      modifies this`fifo, this`arrived, this`bufsz, this`eol, buf
      ensures Tracking() && arrived == old(arrived) + poll.arriving
      ensures seen == if old(fifo) + poll.arriving != [] then Byte else if poll.ticks > rxTimeout then Late else Nothing
      ensures seen.Byte? ==> bufsz == old(bufsz) + 1 || (bufsz == old(bufsz) && eol)
      ensures seen.Byte? && !eol ==> fifo == (old(fifo) + poll.arriving)[1..]
      ensures !seen.Byte? ==> !eol && fifo == [] && bufsz == old(bufsz) && buf[..] == old(buf[..]) && Cut(Pending(), eolChar) == 0
    {
      hide Framed, Cut;
      Arrive(poll.arriving);
      if fifo != [] {
        Take();
        return Byte;
      }
      NoLine();
      seen := if poll.ticks > rxTimeout then Late else Nothing;
    }

    /** Looks for a line.  With `sync`, waits for one until the timeout; without, returns as soon as
        the port is empty.  After the schedule's end nothing more arrives and the counter runs out;
        with a timeout that the counter cannot exceed, a call that waits then waits for ever, and this
        is where `waiting` leaves it.  `looks` counts the looks at the port. */
    method Readline(str: array<byte>, size: nat, sync: bool, polls: seq<Poll>)
      returns (rc: int, waiting: bool, ghost looks: nat)
      requires Valid() && 0 < size <= str.Length && str != buf
      modifies this, buf, str
      ensures Valid() && arrived == old(arrived) + Arrived(polls, looks)
      // A positive result is the length of the line handed out, and there is no other way to get one.
      ensures rc > 0 ==> |lines| == |old(lines)| + 1 && lines[..|old(lines)|] == old(lines)
      ensures rc > 0 ==> rc == |lines[|old(lines)|]| && str[..size] == Copied(lines[|old(lines)|], size)
      ensures rc <= 0 ==> lines == old(lines) && str[..] == old(str[..])
      ensures rc <= 0 ==> fifo == [] && Cut(Pending(), eolChar) == 0
      ensures rc == 0 && !waiting ==> bufsz == old(bufsz) && buf[..bufsz] == old(buf[..bufsz]) && !sync
      ensures rc < 0 && !waiting ==> rc == TIMEOUT || (rc == RX_BUSY && bufsz > old(bufsz) && !sync)
      ensures rc <= 0 ==> bufsz == old(bufsz) + Taken(|old(fifo)|, polls, looks)
      // Without a line it returns at the first look that finds the port empty, with the timeout passed
      // or without sync, and not before; the counter at that look decides on the timeout.
      ensures forall i :: 0 <= i < looks - 1 ==> !EndsAt(|old(fifo)|, polls, rxTimeout, sync, i)
      ensures rc <= 0 && !waiting ==> looks > 0 && EndsAt(|old(fifo)|, polls, rxTimeout, sync, looks - 1)
      ensures rc <= 0 && !waiting ==>
                (rc == TIMEOUT <==> (if looks <= |polls| then polls[looks - 1].ticks else TICKS_MAX) > rxTimeout)
      ensures waiting ==> rc <= 0 && sync && looks > |polls| && rxTimeout >= TICKS_MAX
      ensures waiting ==> !EndsAt(|old(fifo)|, polls, rxTimeout, sync, looks - 1)
    {
      hide Framed, Copied, Cut, EndsAt, Taken, Arrived;
      rc, waiting, looks := 0, false, 0;
      NoLooks(|fifo|, polls);
      var n: nat := 0;
      while true
        invariant Tracking() && n == looks && !waiting && arrived == old(arrived) + Arrived(polls, looks)
        invariant lines == old(lines) && str[..] == old(str[..])
        invariant !eol ==> bufsz == old(bufsz) + Taken(|old(fifo)|, polls, looks)
        invariant !eol ==> |fifo| + Taken(|old(fifo)|, polls, looks) == |old(fifo)| + |Arrived(polls, looks)|
        invariant !eol ==> if bufsz == old(bufsz) then rc == 0 && buf[..bufsz] == old(buf[..bufsz]) else rc == RX_BUSY
        invariant forall i :: 0 <= i < looks ==> !EndsAt(|old(fifo)|, polls, rxTimeout, sync, i)
        decreases !eol, LINE_MAX - bufsz, if n <= |polls| then |polls| + 1 - n else 0
      {
        if eol {
          rc := Deliver(str, size);
          break;
        }
        OneLook(|old(fifo)|, polls, rxTimeout, sync, looks);
        var poll := PollAt(polls, n);
        var seen := Look(poll);
        n, looks := n + 1, looks + 1;
        if seen.Byte? {
          if eol { continue; }
          rc := RX_BUSY;
        } else if seen.Late? {
          rc := TIMEOUT;
          break;
        } else if !sync {
          break;
        } else if n > |polls| {
          waiting := true;
          break;
        }
      }
    }

    /** An empty port leaves no complete line behind. */
    lemma NoLine()
      requires Tracking() && !eol && fifo == []
      ensures Cut(Pending(), eolChar) == 0
    {
      assert Pending() == buf[..bufsz];
      FirstEolUnique(buf[..bufsz], eolChar, bufsz);
    }
  }
}
