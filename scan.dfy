/** The two line scanners of reservoir-sample.c, as functions from the file's
    bytes to the sequence of line-start offsets they record: the buffered
    scan (fgets/ftell, one offset per chunk read) and the memory-mapped scan
    (one offset per '\n' byte). */
module LineScan {
  import opened Defs

  /** The file position after one fgets call that starts at `pos` and has
      room for `budget` bytes: it stops after a '\n', after `budget` bytes,
      or at end of file. */
  function ReadLine(f: seq<byte>, pos: nat, budget: nat): (end: nat)
    requires pos <= |f|
    ensures pos <= end <= |f| && end - pos <= budget
    decreases budget
  {
    if budget == 0 || pos == |f| then pos
    else if f[pos] == Newline then pos + 1
    else ReadLine(f, pos + 1, budget - 1)
  }

  /** A read ends at the first of: just after a '\n', the budget, end of file;
      and it consumes at least one byte when one is there to be read. */
  lemma {:induction false} ReadLineStops(f: seq<byte>, pos: nat, budget: nat)
    requires pos <= |f|
    ensures var end := ReadLine(f, pos, budget);
      (forall p :: pos <= p < end - 1 ==> f[p] != Newline)
      && (end == |f| || end - pos == budget || (pos < end && f[end - 1] == Newline))
      && (pos < |f| && 0 < budget ==> pos < end)
    decreases budget
  {
    if budget == 0 || pos == |f| {
    } else if f[pos] == Newline {
    } else {
      ReadLineStops(f, pos + 1, budget - 1);
    }
  }

  /** A larger budget changes nothing when the smaller one was not reached. */
  lemma {:induction false} ReadLineBudget(f: seq<byte>, pos: nat, small: nat, big: nat)
    requires pos <= |f| && small <= big
    requires ReadLine(f, pos, big) - pos <= small
    ensures ReadLine(f, pos, small) == ReadLine(f, pos, big)
    decreases small
  {
    if small == 0 || pos == |f| {
    } else if f[pos] == Newline {
    } else {
      ReadLineBudget(f, pos + 1, small - 1, big - 1);
    }
  }

  /** The stops of every fgets(in_line, LINE_LENGTH_VALUE + 1, ...) that could
      be issued from `pos` on: entry i is where a read started at pos + i ends. */
  function ChunkStops(f: seq<byte>, pos: nat): (r: seq<nat>)
    requires pos <= |f|
    ensures |r| == |f| - pos + 1
    decreases |f| - pos
  {
    if pos == |f| then [pos] else [ReadLine(f, pos, LineLength)] + ChunkStops(f, pos + 1)
  }

  lemma {:induction false} ChunkStopsAt(f: seq<byte>, pos: nat, x: nat)
    requires pos <= x <= |f|
    ensures ChunkStops(f, pos)[x - pos] == ReadLine(f, x, LineLength)
    decreases x - pos
  {
    if pos < x {
      ChunkStopsAt(f, pos + 1, x);
    }
  }

  /** The position ftell reports after fgets(in_line, LINE_LENGTH_VALUE + 1, ...)
      from `pos`: the end of ReadLine(f, pos, LineLength), as ChunkEndIsRead
      states. It is taken from ChunkStops, the table of those reads for every
      position, and its stop conditions are stated in ChunkEndStops. */
  function ChunkEnd(f: seq<byte>, pos: nat): (e: nat)
    requires pos <= |f|
    ensures pos <= e <= |f| && e - pos <= LineLength
    ensures pos < |f| ==> pos < e
  {
    ChunkStopsAt(f, 0, pos);
    ReadLineStops(f, pos, LineLength);
    ChunkStops(f, 0)[pos]
  }

  lemma ChunkEndIsRead(f: seq<byte>, pos: nat)
    requires pos <= |f|
    ensures ChunkEnd(f, pos) == ReadLine(f, pos, LineLength)
  {
    ChunkStopsAt(f, 0, pos);
  }

  /** A chunk read stops just after its first '\n', after LineLength bytes, or
      at end of file, whichever comes first. */
  lemma ChunkEndStops(f: seq<byte>, pos: nat)
    requires pos <= |f|
    ensures var e := ChunkEnd(f, pos);
      (forall p :: pos <= p < e - 1 ==> f[p] != Newline)
      && (e == |f| || e - pos == LineLength || (pos < e && f[e - 1] == Newline))
  {
    ChunkEndIsRead(f, pos);
    ReadLineStops(f, pos, LineLength);
  }

  /** The end of the line that starts at `pos`, with no length cap. */
  function LineEnd(f: seq<byte>, pos: nat): (e: nat)
    requires pos <= |f|
  {
    ReadLine(f, pos, |f| - pos)
  }

  /** `x` is the first byte of a line: offset 0 or just after a '\n'. */
  predicate IsLineStart(f: seq<byte>, x: int)
  {
    0 <= x < |f| && (x == 0 || f[x - 1] == Newline)
  }

  /** No line, its terminator included, is longer than LineLength bytes. */
  predicate LinesFit(f: seq<byte>)
  {
    forall x | 0 <= x < |f| :: IsLineStart(f, x) ==> LineEnd(f, x) - x <= LineLength
  }

  /** The capped read from a line start ends the line exactly when the line
      holds at most LineLength bytes; then it stops where the line ends. */
  lemma LineFitsAt(f: seq<byte>, x: int)
    requires IsLineStart(f, x)
    ensures (ChunkEnd(f, x) == |f| || f[ChunkEnd(f, x) - 1] == Newline) <==> LineEnd(f, x) - x <= LineLength
    ensures LineEnd(f, x) - x <= LineLength ==> ChunkEnd(f, x) == LineEnd(f, x)
  {
    ChunkEndStops(f, x);
    ReadLineStops(f, x, |f| - x);
    ChunkEndIsRead(f, x);
    if LineEnd(f, x) - x <= LineLength {
      if LineLength <= |f| - x {
        ReadLineBudget(f, x, LineLength, |f| - x);
      } else {
        ReadLineBudget(f, x, |f| - x, LineLength);
      }
    }
  }

  /** When lines fit, the capped read from a line start takes the whole
      line, ending at end of file or just after a '\n'. */
  lemma LinesFitAt(f: seq<byte>, x: int)
    requires LinesFit(f) && IsLineStart(f, x)
    ensures ChunkEnd(f, x) == LineEnd(f, x)
    ensures ChunkEnd(f, x) == |f| || f[ChunkEnd(f, x) - 1] == Newline
  {
    LineFitsAt(f, x);
  }

  /** The offsets the buffered scan records from position `pos` on: one per
      fgets call that returns data, each the position before that call. */
  function ChunkStartsFrom(f: seq<byte>, pos: nat): (r: seq<nat>)
    requires pos <= |f|
    ensures |r| <= |f| - pos
    decreases |f| - pos
  {
    if pos == |f| then []
    else [pos] + ChunkStartsFrom(f, ChunkEnd(f, pos))
  }

  /** The offsets recorded by the buffered scan of the whole file. */
  function BufferedStarts(f: seq<byte>): (r: seq<nat>)
    ensures |r| <= |f|
  {
    ChunkStartsFrom(f, 0)
  }

  lemma {:induction false} ChunkStartsShape(f: seq<byte>, pos: nat)
    requires pos <= |f|
    ensures var s := ChunkStartsFrom(f, pos);
      StrictlyIncreasing(s)
      && (forall i :: 0 <= i < |s| ==> pos <= s[i] < |f|)
      && (pos < |f| <==> |s| > 0)
      && (pos < |f| ==> s[0] == pos)
      && (forall i :: 0 <= i < |s| - 1 ==> s[i + 1] == ChunkEnd(f, s[i]))
      && (|s| > 0 ==> ChunkEnd(f, s[|s| - 1]) == |f|)
    decreases |f| - pos
  {
    if pos < |f| {
      var e := ChunkEnd(f, pos);
      ChunkStartsShape(f, e);
      var t := ChunkStartsFrom(f, e);
      var s := ChunkStartsFrom(f, pos);
      assert s == [pos] + t;
      assert forall i :: 1 <= i < |s| ==> s[i] == t[i - 1];
      if |t| > 0 {
        assert s[1] == e;
      }
    }
  }

  /** The buffered scan records 0 and then the position after each chunk, in
      strictly increasing order; every chunk holds between 1 and LineLength
      bytes and the last one ends at end of file. */
  lemma BufferedStartsShape(f: seq<byte>)
    ensures var s := BufferedStarts(f);
      StrictlyIncreasing(s)
      && (forall i :: 0 <= i < |s| ==> s[i] < |f|)
      && (|s| == 0 <==> |f| == 0)
      && (|f| > 0 ==> s[0] == 0)
      && (forall i :: 0 <= i < |s| - 1 ==> s[i + 1] == ChunkEnd(f, s[i]) && 0 < s[i + 1] - s[i] <= LineLength)
      && (|s| > 0 ==> ChunkEnd(f, s[|s| - 1]) == |f|)
  {
    ChunkStartsShape(f, 0);
    var s := BufferedStarts(f);
    forall i | 0 <= i < |s| - 1
      ensures 0 < s[i + 1] - s[i] <= LineLength
    {
      assert s[i] < s[i + 1];
    }
  }

  /** Only the last offset's chunk reaches end of file. */
  lemma ChunkEndBeforeEof(f: seq<byte>, s: nat)
    requires s in BufferedStarts(f)
    ensures s < |f| && ChunkEnd(f, s) <= |f|
    ensures ChunkEnd(f, s) < |f| ==> ChunkEnd(f, s) in BufferedStarts(f)
  {
    BufferedStartsShape(f);
    var t := BufferedStarts(f);
    var i :| 0 <= i < |t| && t[i] == s;
    if ChunkEnd(f, s) < |f| {
      assert i < |t| - 1;
      assert t[i + 1] == ChunkEnd(f, s);
    }
  }

  lemma {:induction false} LineStartReached(f: seq<byte>, pos: nat, x: int)
    requires pos <= x && IsLineStart(f, x)
    ensures x in ChunkStartsFrom(f, pos)
    decreases |f| - pos
  {
    ChunkEndStops(f, pos);
    if pos < x {
      var e := ChunkEnd(f, pos);
      if e <= x {
        LineStartReached(f, e, x);
      }
    }
  }

  /** Every line start is a chunk start: a chunk never runs past a '\n'. */
  lemma LineStartIsBufferedStart(f: seq<byte>, x: int)
    requires IsLineStart(f, x)
    ensures x in BufferedStarts(f)
  {
    LineStartReached(f, 0, x);
  }

  /** A line longer than LineLength bytes is read in more than one chunk:
      the position LineLength bytes into it is recorded as well, although no
      line starts there. */
  lemma LongLineSplits(f: seq<byte>, s: nat)
    requires s in BufferedStarts(f)
    requires s + LineLength < |f|
    requires forall p :: s <= p < s + LineLength ==> f[p] != Newline
    ensures s + LineLength in BufferedStarts(f)
    ensures !IsLineStart(f, s + LineLength)
  {
    ChunkEndBeforeEof(f, s);
    ChunkEndStops(f, s);
    var e := ChunkEnd(f, s);
    assert e == s + LineLength;
  }

  lemma {:induction false} ChunkStartsAreLineStarts(f: seq<byte>, pos: nat)
    requires LinesFit(f)
    requires pos == |f| || IsLineStart(f, pos)
    ensures forall x :: x in ChunkStartsFrom(f, pos) ==> IsLineStart(f, x)
    decreases |f| - pos
  {
    if pos < |f| {
      LinesFitAt(f, pos);
      var e := ChunkEnd(f, pos);
      ChunkStartsAreLineStarts(f, e);
    }
  }

  /** When lines fit, the buffered scan records exactly the line starts. */
  lemma BufferedStartsAreLineStarts(f: seq<byte>)
    requires LinesFit(f)
    ensures forall x :: x in BufferedStarts(f) <==> IsLineStart(f, x)
  {
    ChunkStartsAreLineStarts(f, 0);
    forall x | IsLineStart(f, x)
      ensures x in BufferedStarts(f)
    {
      LineStartIsBufferedStart(f, x);
    }
  }

  /** start_offset after the memory-mapped scan has passed over `f`: just
      after the last '\n', or 0. It is below |f| exactly when `f` ends with
      an unterminated line. */
  function LastStart(f: seq<byte>): (s: nat)
    ensures s <= |f|
    ensures s < |f| <==> |f| > 0 && f[|f| - 1] != Newline
  {
    if |f| == 0 then 0
    else if f[|f| - 1] == Newline then |f|
    else LastStart(f[..|f| - 1])
  }

  /** LastStart is a line start (or end of file) and no '\n' follows it. */
  lemma {:induction false} LastStartShape(f: seq<byte>)
    ensures LastStart(f) == 0 || f[LastStart(f) - 1] == Newline
    ensures forall p :: LastStart(f) <= p < |f| ==> f[p] != Newline
  {
    if |f| > 0 && f[|f| - 1] != Newline {
      var g := f[..|f| - 1];
      LastStartShape(g);
    }
  }

  /** The offsets the memory-mapped scan records, in order: the start of each
      line that a '\n' ends. */
  function MmapStarts(f: seq<byte>): (r: seq<nat>)
    ensures |r| <= |f|
  {
    if |f| == 0 then []
    else
      var g := f[..|f| - 1];
      if f[|f| - 1] == Newline then MmapStarts(g) + [LastStart(g)]
      else MmapStarts(g)
  }

  /** The mmap scan records one offset per '\n' byte. */
  lemma {:induction false} MmapStartsCount(f: seq<byte>)
    ensures |MmapStarts(f)| == multiset(f)[Newline]
  {
    if |f| > 0 {
      var g := f[..|f| - 1];
      MmapStartsCount(g);
      assert f == g + [f[|f| - 1]];
      assert multiset(f) == multiset(g) + multiset{f[|f| - 1]};
    }
  }

  /** The mmap scan records exactly the line starts that precede the last
      '\n', in strictly increasing order. */
  lemma {:induction false} MmapStartsAreTerminatedLineStarts(f: seq<byte>)
    ensures StrictlyIncreasing(MmapStarts(f))
    ensures forall x :: x in MmapStarts(f) <==> IsLineStart(f, x) && x < LastStart(f)
  {
    if |f| > 0 {
      var g := f[..|f| - 1];
      MmapStartsAreTerminatedLineStarts(g);
      assert forall p :: 0 <= p < |g| ==> f[p] == g[p];
      if f[|f| - 1] == Newline {
        LastStartShape(g);
        var m := MmapStarts(g);
        assert MmapStarts(f) == m + [LastStart(g)];
        assert forall i :: 0 <= i < |m| ==> m[i] in m;
        forall x
          ensures x in MmapStarts(f) <==> IsLineStart(f, x) && x < LastStart(f)
        {
          if IsLineStart(f, x) && x < LastStart(g) {
            assert IsLineStart(g, x);
          }
        }
      } else {
        forall x
          ensures x in MmapStarts(f) <==> IsLineStart(f, x) && x < LastStart(f)
        {
          if IsLineStart(f, x) && x < LastStart(f) {
            assert IsLineStart(g, x);
          }
        }
      }
    }
  }

  /** The unterminated last line, if the file has one. */
  function TrailingLine(f: seq<byte>): (r: seq<nat>)
    ensures |r| <= 1
  {
    if LastStart(f) < |f| then [LastStart(f)] else []
  }

  /** An unterminated last line is recorded by the buffered scan and never by
      the memory-mapped scan; an empty file yields no offsets from either. */
  lemma TrailingLineCountedOnlyByBuffered(f: seq<byte>)
    ensures |f| == 0 ==> BufferedStarts(f) == [] && MmapStarts(f) == []
    ensures LastStart(f) < |f| ==>
      LastStart(f) in BufferedStarts(f) && LastStart(f) !in MmapStarts(f)
  {
    if LastStart(f) < |f| {
      var s := LastStart(f);
      assert IsLineStart(f, s) by {
        LastStartShape(f);
      }
      assert s in BufferedStarts(f) by {
        LineStartIsBufferedStart(f, s);
      }
      assert s !in MmapStarts(f) by {
        MmapStartsAreTerminatedLineStarts(f);
      }
    }
  }

  /** The boundary asymmetry: when no line is longer than LineLength, the
      buffered scan records what the mmap scan records, plus the unterminated
      last line if there is one. */
  lemma ScanAsymmetry(f: seq<byte>)
    requires LinesFit(f)
    ensures BufferedStarts(f) == MmapStarts(f) + TrailingLine(f)
    ensures |BufferedStarts(f)| == multiset(f)[Newline] + (if |f| > 0 && f[|f| - 1] != Newline then 1 else 0)
  {
    var b := BufferedStarts(f);
    var m := MmapStarts(f);
    var all := m + TrailingLine(f);
    assert StrictlyIncreasing(b) by {
      BufferedStartsShape(f);
    }
    assert StrictlyIncreasing(all) && (forall x :: x in all <==> IsLineStart(f, x)) by {
      MmapStartsAreTerminatedLineStarts(f);
      LastStartShape(f);
      assert forall i :: 0 <= i < |m| ==> m[i] in m;
      forall x
        ensures x in all <==> IsLineStart(f, x)
      {
        if x == LastStart(f) && LastStart(f) < |f| {
          assert IsLineStart(f, x);
        }
      }
    }
    assert forall x :: x in all <==> x in b by {
      BufferedStartsAreLineStarts(f);
    }
    StrictlyIncreasingUnique(all, b);
    MmapStartsCount(f);
  }

  /** One chunk of the buffered scan: once the offsets `done` are recorded
      and the next read starts at `pos`, recording `pos` and moving to where
      that read stops leaves the rest of the scan unchanged. */
  lemma ChunkStartsStep(f: seq<byte>, done: seq<nat>, pos: nat)
    requires pos < |f|
    requires done + ChunkStartsFrom(f, pos) == BufferedStarts(f)
    ensures (done + [pos]) + ChunkStartsFrom(f, ChunkEnd(f, pos)) == BufferedStarts(f)
  {
    assert ChunkStartsFrom(f, pos) == [pos] + ChunkStartsFrom(f, ChunkEnd(f, pos));
  }

  /** One byte of the mmap scan: a '\n' at index idx records the current line
      start and moves the next one to idx + 1; any other byte changes nothing. */
  lemma MmapStep(f: seq<byte>, idx: nat)
    requires idx < |f|
    ensures LastStart(f[..idx + 1]) == if f[idx] == Newline then idx + 1 else LastStart(f[..idx])
    ensures MmapStarts(f[..idx + 1]) ==
      if f[idx] == Newline then MmapStarts(f[..idx]) + [LastStart(f[..idx])] else MmapStarts(f[..idx])
  {
    assert f[..idx + 1][..idx] == f[..idx];
  }
}
