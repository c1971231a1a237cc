/** What the three printers write: for each selected offset, the bytes of one
    capped line read from there. */
module Emission {
  import opened Defs
  import opened LineScan

  /** Every offset is a position inside the file or at its end. */
  predicate WithinFile(f: seq<byte>, offs: seq<int>)
  {
    forall i :: 0 <= i < |offs| ==> 0 <= offs[i] <= |f|
  }

  /** The bytes one line read takes from `off`: through the first '\n'
      inclusive, at most LineLength bytes, and never past end of file. */
  function LineAt(f: seq<byte>, off: nat): (line: seq<byte>)
    requires off <= |f|
    ensures |line| <= LineLength
    ensures forall p :: 0 <= p < |line| - 1 ==> line[p] != Newline
    ensures off < |f| ==> 0 < |line|
    ensures off + |line| == |f| || |line| == LineLength || (0 < |line| && line[|line| - 1] == Newline)
  {
    ChunkEndStops(f, off);
    f[off..ChunkEnd(f, off)]
  }

  /** The output for a list of offsets: the line at each, in list order. */
  function Emitted(f: seq<byte>, offs: seq<int>): (out: seq<byte>)
    requires WithinFile(f, offs)
    ensures |out| <= LineLength * |offs|
    decreases |offs|
  {
    if offs == [] then []
    else
      var n := |offs| - 1;
      Emitted(f, offs[..n]) + LineAt(f, offs[n])
  }

  /** Printing one more offset of a list appends the line read there. */
  lemma EmittedPrefixStep(f: seq<byte>, offs: seq<int>, i: nat)
    requires WithinFile(f, offs) && i < |offs|
    ensures WithinFile(f, offs[..i]) && WithinFile(f, offs[..i + 1])
    ensures Emitted(f, offs[..i + 1]) == Emitted(f, offs[..i]) + LineAt(f, offs[i])
  {
    assert offs[..i + 1][..i] == offs[..i];
  }

  lemma {:induction false} EmittedAppend(f: seq<byte>, a: seq<int>, b: seq<int>)
    requires WithinFile(f, a) && WithinFile(f, b)
    ensures WithinFile(f, a + b)
    ensures Emitted(f, a + b) == Emitted(f, a) + Emitted(f, b)
    decreases |b|
  {
    if b != [] {
      var n := |b| - 1;
      assert (a + b)[..|a| + n] == a + b[..n];
      EmittedAppend(f, a, b[..n]);
    } else {
      assert a + b == a;
    }
  }

  lemma EmittedSingle(f: seq<byte>, x: nat)
    requires x <= |f|
    ensures WithinFile(f, [x]) && Emitted(f, [x]) == LineAt(f, x)
  {
    assert [x][..0] == [];
  }

  lemma {:induction false} EmittedChunks(f: seq<byte>, pos: nat)
    requires pos <= |f|
    ensures WithinFile(f, ChunkStartsFrom(f, pos))
    ensures Emitted(f, ChunkStartsFrom(f, pos)) == f[pos..]
    decreases |f| - pos
  {
    if pos < |f| {
      var e := ChunkEnd(f, pos);
      var rest := ChunkStartsFrom(f, e);
      assert WithinFile(f, rest) && Emitted(f, rest) == f[e..] by {
        EmittedChunks(f, e);
      }
      assert WithinFile(f, ChunkStartsFrom(f, pos)) &&
        Emitted(f, ChunkStartsFrom(f, pos)) == LineAt(f, pos) + Emitted(f, rest) by {
        assert ChunkStartsFrom(f, pos) == [pos] + rest;
        EmittedSingle(f, pos);
        EmittedAppend(f, [pos], rest);
      }
      assert LineAt(f, pos) + f[e..] == f[pos..] by {
        assert LineAt(f, pos) == f[pos..e];
      }
    }
  }

  /** Printing every offset of the buffered scan, in scan order, reproduces
      the file. */
  lemma BufferedRoundTrip(f: seq<byte>)
    ensures WithinFile(f, BufferedStarts(f))
    ensures Emitted(f, BufferedStarts(f)) == f
  {
    EmittedChunks(f, 0);
  }

  /** With preserve-order, a sample that holds every offset of the buffered
      scan is printed as the original file, byte for byte. */
  lemma PreserveOrderRoundTrip(f: seq<byte>, sample: seq<int>)
    requires Ascending(sample)
    requires multiset(sample) == multiset(BufferedStarts(f))
    ensures WithinFile(f, sample)
    ensures Emitted(f, sample) == f
  {
    BufferedStartsShape(f);
    StrictlyIncreasingIsAscending(BufferedStarts(f));
    AscendingUnique(sample, BufferedStarts(f));
    BufferedRoundTrip(f);
  }

  /** The unterminated last line is read whole when it fits. */
  lemma TrailingLineRead(f: seq<byte>)
    requires LinesFit(f) && LastStart(f) < |f|
    ensures ChunkEnd(f, LastStart(f)) == |f|
  {
    LastStartShape(f);
    UnterminatedLineRead(f, LastStart(f));
  }

  /** A line start with no '\n' after it is read through end of file when
      lines fit. */
  lemma UnterminatedLineRead(f: seq<byte>, s: int)
    requires LinesFit(f) && IsLineStart(f, s)
    requires forall p :: s <= p < |f| ==> f[p] != Newline
    ensures ChunkEnd(f, s) == |f|
  {
    LinesFitAt(f, s);
  }

  /** The mmap scan's offsets followed by the trailing line print the file. */
  lemma MmapThenTrailingEmitsFile(f: seq<byte>)
    requires LinesFit(f)
    ensures WithinFile(f, MmapStarts(f)) && WithinFile(f, TrailingLine(f))
    ensures Emitted(f, MmapStarts(f)) + Emitted(f, TrailingLine(f)) == f
  {
    var m := MmapStarts(f);
    var t := TrailingLine(f);
    ScanAsymmetry(f);
    BufferedRoundTrip(f);
    assert forall i :: 0 <= i < |m| ==> m[i] == (m + t)[i];
    EmittedAppend(f, m, t);
  }

  /** The trailing line, when there is one, prints as the rest of the file. */
  lemma TrailingLineEmitted(f: seq<byte>)
    requires LinesFit(f)
    ensures WithinFile(f, TrailingLine(f))
    ensures |Emitted(f, TrailingLine(f))| == |f| - LastStart(f)
  {
    var s := LastStart(f);
    if s < |f| {
      assert TrailingLine(f) == [s];
      EmittedSingle(f, s);
      TrailingLineRead(f);
    } else {
      assert TrailingLine(f) == [];
    }
  }

  /** The mmap scan's offsets, printed in file order, reproduce the file up
      to and including its last '\n' (when no line exceeds LineLength). */
  lemma MmapRoundTrip(f: seq<byte>)
    requires LinesFit(f)
    ensures WithinFile(f, MmapStarts(f))
    ensures Emitted(f, MmapStarts(f)) == f[..LastStart(f)]
  {
    MmapThenTrailingEmitsFile(f);
    TrailingLineEmitted(f);
    var a := Emitted(f, MmapStarts(f));
    assert a == (a + Emitted(f, TrailingLine(f)))[..LastStart(f)];
  }

  /** With preserve-order, a sample that holds every offset of the mmap scan
      prints the file up to its last '\n' (when no line exceeds LineLength). */
  lemma MmapPreserveOrderRoundTrip(f: seq<byte>, sample: seq<int>)
    requires LinesFit(f)
    requires Ascending(sample)
    requires multiset(sample) == multiset(MmapStarts(f))
    ensures WithinFile(f, sample)
    ensures Emitted(f, sample) == f[..LastStart(f)]
  {
    MmapStartsAreTerminatedLineStarts(f);
    StrictlyIncreasingIsAscending(MmapStarts(f));
    AscendingUnique(sample, MmapStarts(f));
    MmapRoundTrip(f);
  }

  /** The mmap printer writes f[off], f[off + 1], ... until it has written a
      '\n' or LineLength bytes; it stays inside the mapping exactly when it
      meets one of those before end of file. */
  predicate InMapping(f: seq<byte>, off: int)
  {
    0 <= off <= |f| &&
    var e := ChunkEnd(f, off);
    e == off + LineLength || (off < e && f[e - 1] == Newline)
  }

  /** Offsets recorded by the mmap scan can always be printed from the
      mapping: a '\n' follows each of them. */
  lemma MmapStartsInMapping(f: seq<byte>)
    ensures forall x :: x in MmapStarts(f) ==> InMapping(f, x)
  {
    MmapStartsAreTerminatedLineStarts(f);
    LastStartShape(f);
    forall x | x in MmapStarts(f)
      ensures InMapping(f, x)
    {
      ChunkEndStops(f, x);
      assert f[LastStart(f) - 1] == Newline;
    }
  }

  /** A file that is empty or ends with '\n' can be printed from the mapping
      at any offset inside it. */
  lemma TerminatedFileInMapping(f: seq<byte>, x: int)
    requires |f| == 0 || f[|f| - 1] == Newline
    requires 0 <= x < |f|
    ensures InMapping(f, x)
  {
    ChunkEndStops(f, x);
  }

  /** The out-of-bounds read of hybrid mode: the buffered scan records an
      unterminated last line shorter than LineLength, and the mmap printer
      reading it does not stop before the end of the mapping. */
  lemma HybridTrailingLineLeavesMapping(f: seq<byte>)
    requires LastStart(f) < |f| && |f| - LastStart(f) < LineLength
    ensures LastStart(f) in BufferedStarts(f)
    ensures !InMapping(f, LastStart(f))
  {
    TrailingLineCountedOnlyByBuffered(f);
    LastStartShape(f);
    ChunkEndStops(f, LastStart(f));
  }

  /** Where the file position stands before the i-th read of the sorted
      cstdio printer: where the previous fgets stopped, or 0 at the start. */
  function PositionBefore(f: seq<byte>, offs: seq<int>, i: nat): (p: int)
    requires WithinFile(f, offs) && i <= |offs|
    ensures 0 <= p <= |f|
  {
    if i == 0 then 0 else ChunkEnd(f, offs[i - 1])
  }

  /** The seek distance the sorted cstdio printer computes before read i:
      offs[i] - previous_offset - previous_line_length, where both are 0
      before the first read and are otherwise the previous target and the
      length of the line read there. */
  function SeekDistance(f: seq<byte>, offs: seq<int>, i: nat): (d: int)
    requires WithinFile(f, offs) && i < |offs|
  {
    if i == 0 then offs[0] else offs[i] - offs[i - 1] - |LineAt(f, offs[i - 1])|
  }

  /** The relative seeks the sorted cstdio printer issues before its first n
      reads. */
  function RelativeSeeks(f: seq<byte>, offs: seq<int>, n: nat): (r: seq<int>)
    requires WithinFile(f, offs) && n <= |offs|
    ensures |r| == n
  {
    if n == 0 then []
    else RelativeSeeks(f, offs, n - 1) + [SeekDistance(f, offs, n - 1)]
  }

  /** The i-th relative seek, taken from where the previous read left the
      file position, lands exactly on the i-th target offset: the length of
      the line printed is how far that fgets moved the position. */
  lemma {:induction false} RelativeSeeksLand(f: seq<byte>, offs: seq<int>, n: nat, i: nat)
    requires WithinFile(f, offs) && i < n <= |offs|
    ensures PositionBefore(f, offs, i) + RelativeSeeks(f, offs, n)[i] == offs[i]
  {
    if i < n - 1 {
      RelativeSeeksLand(f, offs, n - 1, i);
    } else if 0 < i {
      assert |LineAt(f, offs[i - 1])| == ChunkEnd(f, offs[i - 1]) - offs[i - 1];
    }
  }

  lemma BufferedStartBounds(f: seq<byte>, x: int)
    requires x in BufferedStarts(f)
    ensures 0 <= x < |f|
  {
    BufferedStartsShape(f);
  }

  /** A chunk read from a recorded offset never runs past the next recorded
      offset. */
  lemma ChunkEndNoOvershoot(f: seq<byte>, a: int, b: int)
    requires a in BufferedStarts(f) && b in BufferedStarts(f) && a < b
    ensures 0 <= a < b < |f| && ChunkEnd(f, a) <= b
  {
    BufferedStartsShape(f);
    var s := BufferedStarts(f);
    var p :| 0 <= p < |s| && s[p] == a;
    var q :| 0 <= q < |s| && s[q] == b;
    assert p < q;
    if p + 1 < q {
      assert s[p + 1] < s[q];
    }
  }

  /** On ascending, distinct offsets of the buffered scan the relative seek
      target - previous_offset - previous_line_length is never negative. */
  lemma SortedSeeksForward(f: seq<byte>, offs: seq<int>)
    requires StrictlyIncreasing(offs)
    requires forall i :: 0 <= i < |offs| ==> offs[i] in BufferedStarts(f)
    ensures WithinFile(f, offs)
    ensures forall i :: 0 <= i < |offs| ==> PositionBefore(f, offs, i) <= offs[i]
    ensures forall i :: 0 <= i < |offs| ==> RelativeSeeks(f, offs, |offs|)[i] >= 0
  {
    BufferedStartsShape(f);
    assert WithinFile(f, offs) by {
      forall i | 0 <= i < |offs|
        ensures 0 <= offs[i] <= |f|
      {
        BufferedStartBounds(f, offs[i]);
      }
    }
    forall i | 0 < i < |offs|
      ensures PositionBefore(f, offs, i) <= offs[i]
    {
      ChunkEndNoOvershoot(f, offs[i - 1], offs[i]);
    }
    forall i | 0 <= i < |offs|
      ensures RelativeSeeks(f, offs, |offs|)[i] >= 0
    {
      RelativeSeeksLand(f, offs, |offs|, i);
    }
  }
}
