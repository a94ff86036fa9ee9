/** How a byte stream is cut into lines: at the first EOL, which belongs to the line, or after
    LINE_MAX bytes without one.  A full line without EOL is complete only once a further byte exists. */
module Framing {
  import opened Basics

  const LINE_MAX := 1024

  /** The position of the first EOL, or the length. */
  function FirstEol(s: seq<byte>, eol: byte): (i: nat)
    ensures i <= |s| && eol !in s[..i] && (i < |s| ==> s[i] == eol)
  {
    if s == [] then 0
    else if s[0] == eol then 0
    else
      var i := 1 + FirstEol(s[1..], eol);
      assert s[..i] == [s[0]] + s[1..][..i - 1];
      i
  }

  /** The length of the first line of a stream, or 0 if no line is complete. */
  function Cut(s: seq<byte>, eol: byte): (n: nat)
    ensures n <= |s| && n <= LINE_MAX
  {
    var i := FirstEol(s, eol);
    if i < |s| && i < LINE_MAX then i + 1
    else if |s| > LINE_MAX then LINE_MAX
    else 0
  }

  /** All complete lines of a stream. */
  function Lines(s: seq<byte>, eol: byte): seq<seq<byte>> {
    var n := Cut(s, eol);
    if n == 0 then [] else [s[..n]] + Lines(s[n..], eol)
  }

  function Concat(lines: seq<seq<byte>>): seq<byte> {
    if lines == [] then [] else lines[0] + Concat(lines[1..])
  }

  /** `lines` are the first lines of `s`, and `pending` is what follows them. */
  ghost predicate Framed(s: seq<byte>, eol: byte, lines: seq<seq<byte>>, pending: seq<byte>) {
    if lines == [] then pending == s
    else
      var n := Cut(s, eol);
      n > 0 && lines[0] == s[..n] && Framed(s[n..], eol, lines[1..], pending)
  }

  lemma InPrefix(s: seq<byte>, i: nat, j: nat)
    ensures j < i <= |s| ==> s[j] in s[..i]
  {
    assert j < i <= |s| ==> s[..i][j] == s[j];
  }

  lemma FirstEolUnique(s: seq<byte>, eol: byte, i: nat)
    requires i <= |s| && eol !in s[..i] && (i < |s| ==> s[i] == eol)
    ensures FirstEol(s, eol) == i
  {
    var j := FirstEol(s, eol);
    InPrefix(s, i, j);
    InPrefix(s, j, i);
  }

  /** A complete line stays the first line however the stream goes on. */
  lemma CutIsStable(s: seq<byte>, eol: byte, more: seq<byte>)
    requires Cut(s, eol) > 0
    ensures Cut(s + more, eol) == Cut(s, eol)
  {
    var i := FirstEol(s, eol);
    if i < |s| {
      assert (s + more)[..i] == s[..i];
      FirstEolUnique(s + more, eol, i);
    } else {
      var j := FirstEol(s + more, eol);
      InPrefix(s, |s|, j);
      assert s[..|s|] == s;
    }
  }

  lemma {:induction false} FramedGrows(s: seq<byte>, eol: byte, lines: seq<seq<byte>>, pending: seq<byte>, more: seq<byte>)
    requires Framed(s, eol, lines, pending)
    ensures Framed(s + more, eol, lines, pending + more)
  {
    if lines != [] {
      var n := Cut(s, eol);
      CutIsStable(s, eol, more);
      assert (s + more)[..n] == s[..n] && (s + more)[n..] == s[n..] + more;
      FramedGrows(s[n..], eol, lines[1..], pending, more);
    }
  }

  /** The first line of what is pending is the next line of the stream. */
  lemma {:induction false} FramedNext(s: seq<byte>, eol: byte, lines: seq<seq<byte>>, pending: seq<byte>)
    requires Framed(s, eol, lines, pending) && Cut(pending, eol) > 0
    ensures Framed(s, eol, lines + [pending[..Cut(pending, eol)]], pending[Cut(pending, eol)..])
  {
    var line, rest := pending[..Cut(pending, eol)], pending[Cut(pending, eol)..];
    if lines == [] {
      assert [line][1..] == [];
    } else {
      FramedNext(s[Cut(s, eol)..], eol, lines[1..], pending);
      assert (lines + [line])[1..] == lines[1..] + [line];
    }
  }

  lemma FirstAndRest<T>(a: seq<T>, b: seq<T>)
    ensures a != [] ==> a + b == [a[0]] + (a[1..] + b)
  {
  }

  lemma Regrouped<T>(s: seq<T>, n: nat, middle: seq<T>, rest: seq<T>)
    requires n <= |s| && s[n..] == middle + rest
    ensures s == (s[..n] + middle) + rest
  {
    assert s == s[..n] + s[n..];
  }

  /** The lines taken so far are the first of all complete lines, and with what is pending they make
      up the stream. */
  lemma {:induction false} FramedIsPrefix(s: seq<byte>, eol: byte, lines: seq<seq<byte>>, pending: seq<byte>)
    requires Framed(s, eol, lines, pending)
    ensures Lines(s, eol) == lines + Lines(pending, eol)
    ensures s == Concat(lines) + pending
  {
    if lines != [] {
      hide Cut, FirstEol;
      var n := Cut(s, eol);
      FramedIsPrefix(s[n..], eol, lines[1..], pending);
      FirstAndRest(lines, Lines(pending, eol));
      Regrouped(s, n, Concat(lines[1..]), pending);
    }
  }

  /** What a line is: it ends at its only EOL, or has LINE_MAX bytes without one. */
  predicate IsLine(line: seq<byte>, eol: byte) {
    && 0 < |line| <= LINE_MAX
    && eol !in line[..|line| - 1]
    && (line[|line| - 1] == eol || |line| == LINE_MAX)
  }

  /** Every line taken is one; and what is pending when no line is complete has no EOL and fits. */
  lemma {:induction false} LinesAreLines(s: seq<byte>, eol: byte, lines: seq<seq<byte>>, pending: seq<byte>)
    requires Framed(s, eol, lines, pending)
    ensures forall i :: 0 <= i < |lines| ==> IsLine(lines[i], eol)
    ensures Cut(pending, eol) == 0 <==> eol !in pending && |pending| <= LINE_MAX
  {
    if lines == [] {
      NoEol(pending, eol);
    } else {
      var n := Cut(s, eol);
      LinesAreLines(s[n..], eol, lines[1..], pending);
      FirstIsLine(s, eol);
    }
  }

  lemma NoEol(s: seq<byte>, eol: byte)
    ensures FirstEol(s, eol) == |s| <==> eol !in s
  {
    var i := FirstEol(s, eol);
    assert s[..|s|] == s;
    if i < |s| {
      assert s[i] in s;
    }
  }

  lemma FirstIsLine(s: seq<byte>, eol: byte)
    requires Cut(s, eol) > 0
    ensures IsLine(s[..Cut(s, eol)], eol)
  {
    var n, i := Cut(s, eol), FirstEol(s, eol);
    assert s[..n][..n - 1] == s[..n - 1];
    assert s[..n - 1] <= s[..i];
    assert forall x :: x in s[..n - 1] ==> x in s[..i];
  }

  /** Two readers of the same stream agree: the lines of the one are the first lines of the other, and
      once neither has a complete line pending they have the same lines and the same remainder. */
  lemma SameStreamSameLines(s: seq<byte>, eol: byte, lines1: seq<seq<byte>>, pending1: seq<byte>,
                            lines2: seq<seq<byte>>, pending2: seq<byte>)
    requires Framed(s, eol, lines1, pending1) && Framed(s, eol, lines2, pending2)
    ensures |lines1| <= |lines2| ==> lines1 <= lines2
    ensures Cut(pending1, eol) == 0 && Cut(pending2, eol) == 0 ==> lines1 == lines2 && pending1 == pending2
  {
    FramedIsPrefix(s, eol, lines1, pending1);
    FramedIsPrefix(s, eol, lines2, pending2);
    if |lines1| <= |lines2| {
      assert Lines(s, eol)[..|lines1|] == lines1;
      assert Lines(s, eol)[..|lines2|] == lines2;
    }
    if Cut(pending1, eol) == 0 && Cut(pending2, eol) == 0 {
      assert lines1 == Lines(s, eol) == lines2;
      assert s[|Concat(lines1)|..] == pending1;
      assert s[|Concat(lines1)|..] == pending2;
    }
  }
}
