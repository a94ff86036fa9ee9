/** The circular buffer discipline both JTAG UART rings follow.

    A ring is an array with two indices: `outIx`, where the consumer takes the next element, and
    `inIx`, where the producer stores the next one.  The indices are equal exactly when the ring is
    empty, so a ring of length N never holds more than N - 1 elements.
 */
module Ring {

  /** The elements between the two indices, oldest first. */
  ghost function Live<T>(buf: seq<T>, outIx: nat, inIx: nat): (s: seq<T>)
    requires outIx < |buf| && inIx < |buf|
    ensures |s| == if outIx <= inIx then inIx - outIx else |buf| - outIx + inIx
  {
    if outIx <= inIx then buf[outIx..inIx] else buf[outIx..] + buf[..inIx]
  }

  /** How much a producer may copy in one piece, computed from its view of both indices. */
  function FreeRun(n: nat, inIx: nat, outIx: nat): (room: nat)
    requires inIx < n && outIx < n
  {
    if inIx < outIx then outIx - 1 - inIx
    else if outIx > 0 then n - inIx
    else n - 1 - inIx
  }

  /** How much a consumer may copy in one piece, computed from its view of both indices. */
  function ReadyRun(n: nat, inIx: nat, outIx: nat): (ready: nat)
    requires inIx < n && outIx < n
  {
    if inIx >= outIx then inIx - outIx else n - outIx
  }

  /** Index arithmetic modulo the length, for any length. */
  lemma Wrap(n: nat, x: nat)
    requires 0 < n && x < 2 * n
    ensures x % n == if x < n then x else x - n
  {
    if x >= n {
      var q := x / n;
      assert x == n * q + x % n;
      assert q == 1;
    }
  }

  /** The producer's formula allows a piece exactly when the ring is not full, and such a piece
      neither crosses the array end nor makes the ring look empty. */
  lemma FreeRunIsSafe<T>(buf: seq<T>, outIx: nat, inIx: nat)
    requires outIx < |buf| && inIx < |buf|
    ensures var n := FreeRun(|buf|, inIx, outIx);
            && inIx + n <= |buf|
            && |Live(buf, outIx, inIx)| + n <= |buf| - 1
            && (n == 0 <==> |Live(buf, outIx, inIx)| == |buf| - 1)
  {
  }

  /** Writing outside the live stretch does not disturb it, even where that stretch wraps. */
  lemma StoreFree<T>(buf: seq<T>, outIx: nat, inIx: nat, k: nat, b: T)
    requires outIx < |buf| && inIx < |buf| && inIx + k < |buf|
    requires |Live(buf, outIx, inIx)| + k < |buf| - 1 || (k == 0 && |Live(buf, outIx, inIx)| < |buf|)
    ensures Live(buf[inIx + k := b], outIx, inIx) == Live(buf, outIx, inIx)
  {
  }

  /** A whole piece stored at `inIx` and published by advancing `inIx` is appended. */
  lemma Publish<T>(buf: seq<T>, outIx: nat, inIx: nat, piece: seq<T>)
    requires outIx < |buf| && inIx < |buf| && inIx + |piece| <= |buf|
    requires |Live(buf, outIx, inIx)| + |piece| <= |buf| - 1
    requires buf[inIx..inIx + |piece|] == piece
    ensures Live(buf, outIx, (inIx + |piece|) % |buf|) == Live(buf, outIx, inIx) + piece
  {
    Wrap(|buf|, inIx + |piece|);
    if outIx <= inIx {
      if inIx + |piece| < |buf| {
        assert buf[outIx..inIx + |piece|] == buf[outIx..inIx] + buf[inIx..inIx + |piece|];
      } else {
        assert buf[outIx..] == buf[outIx..inIx] + buf[inIx..];
      }
    } else {
      assert buf[..inIx + |piece|] == buf[..inIx] + buf[inIx..inIx + |piece|];
    }
  }

  /** A piece taken at `outIx` and released by advancing `outIx` is the oldest part. */
  lemma Release<T>(buf: seq<T>, outIx: nat, inIx: nat, n: nat)
    requires outIx < |buf| && inIx < |buf|
    requires n <= ReadyRun(|buf|, inIx, outIx)
    ensures outIx + n <= |buf| && n <= |Live(buf, outIx, inIx)|
    ensures buf[outIx..outIx + n] == Live(buf, outIx, inIx)[..n]
    ensures Live(buf, (outIx + n) % |buf|, inIx) == Live(buf, outIx, inIx)[n..]
  {
    Wrap(|buf|, outIx + n);
    var live := Live(buf, outIx, inIx);
    if outIx <= inIx {
      assert live[..n] == buf[outIx..outIx + n];
      assert live[n..] == buf[outIx + n..inIx];
    } else {
      assert live[..n] == buf[outIx..outIx + n];
      if outIx + n < |buf| {
        assert live[n..] == buf[outIx + n..] + buf[..inIx];
      } else {
        assert live[n..] == buf[..inIx];
      }
    }
  }

  /** Storing one element at `inIx` and advancing it appends that element, unless the ring is full. */
  lemma PublishOne<T>(buf: seq<T>, outIx: nat, inIx: nat, b: T)
    requires outIx < |buf| && inIx < |buf|
    requires |Live(buf, outIx, inIx)| < |buf| - 1
    ensures Live(buf[inIx := b], outIx, (inIx + 1) % |buf|) == Live(buf, outIx, inIx) + [b]
  {
    StoreFree(buf, outIx, inIx, 0, b);
    Publish(buf[inIx := b], outIx, inIx, [b]);
  }

  /** Taking one element at `outIx` and advancing it removes the oldest element. */
  lemma ReleaseOne<T>(buf: seq<T>, outIx: nat, inIx: nat)
    requires outIx < |buf| && inIx < |buf| && outIx != inIx
    ensures var live := Live(buf, outIx, inIx);
            live != [] && buf[outIx] == live[0] && Live(buf, (outIx + 1) % |buf|, inIx) == live[1..]
  {
    Release(buf, outIx, inIx, 1);
    assert buf[outIx] == buf[outIx..outIx + 1][0];
  }

  /** The index test for a full ring. */
  lemma FullTest<T>(buf: seq<T>, outIx: nat, inIx: nat)
    requires outIx < |buf| && inIx < |buf|
    ensures (inIx + 1) % |buf| == outIx <==> |Live(buf, outIx, inIx)| == |buf| - 1
  {
    Wrap(|buf|, inIx + 1);
  }
}
