/** The offset reservoir of reservoir-sample.c and the routines that fill,
    reorder and print it. The input file is its bytes `f`; a file position
    is an index into `f`; fgets/ftell is LineScan.ChunkEnd. */
module Reservoir {
  import opened Defs
  import opened LineScan
  import opened Sampling
  import opened Emission

  /** struct offset_reservoir: the count of offsets in use and the buffer. */
  class OffsetReservoir {
    var numOffsets: int
    var offsets: array<int>

    ghost predicate Valid()
      reads this
    {
      0 <= numOffsets <= offsets.Length
    }

    /** new_offset_reservoir_ptr(len): room for len offsets, all counted. */
    constructor (len: nat)
      ensures Valid() && fresh(offsets)
      ensures numOffsets == len && offsets.Length == len
    {
      numOffsets := len;
      offsets := new int[len];
    }

    /** The body shared by both fixed-k scans for line lnIdx starting at
        startOffset: fill slot lnIdx while lnIdx < k, afterwards overwrite
        slot rand() % k when the acceptance test passes. */
    method Offer(k: nat, lnIdx: nat, startOffset: int, d: Draw)
      requires 0 < k <= offsets.Length
      modifies offsets
      ensures offsets[..] == Step(old(offsets[..]), k, lnIdx, startOffset, d)
    {
      if lnIdx < k {
        offsets[lnIdx] := startOffset;
      } else {
        var randIdx := Slot(k, d);
        if Accepts(k, lnIdx, d.acceptRand) {
          offsets[randIdx] := startOffset;
        }
      }
    }

    /** offset_reservoir_sample_input_via_cstdio_with_fixed_k: offers the
        offset before each fgets chunk; the count drops to the number of
        lines when there are fewer than k. */
    method SampleViaCstdioWithFixedK(f: seq<byte>, draw: nat -> Draw)
      requires Valid() && 0 < numOffsets
      modifies this, offsets
      ensures Valid() && offsets == old(offsets)
      ensures numOffsets == Min(old(numOffsets), |BufferedStarts(f)|)
      ensures offsets[..] == Fill(old(offsets[..]), old(numOffsets), BufferedStarts(f), draw)
    {
      var k := numOffsets;
      var startOffset: nat := 0;
      var lnIdx := 0;
      ghost var scanned: seq<nat> := [];
      while startOffset < |f|
        invariant startOffset <= |f|
        invariant scanned + ChunkStartsFrom(f, startOffset) == BufferedStarts(f)
        invariant lnIdx == |scanned|
        invariant offsets == old(offsets) && numOffsets == k
        invariant offsets[..] == Fill(old(offsets[..]), k, scanned, draw)
        decreases |f| - startOffset
      {
        Offer(k, lnIdx, startOffset, draw(lnIdx));
        FillSnoc(old(offsets[..]), k, scanned, startOffset, draw);
        ChunkStartsStep(f, scanned, startOffset);
        scanned := scanned + [startOffset];
        startOffset := ChunkEnd(f, startOffset);
        lnIdx := lnIdx + 1;
      }
      assert scanned == BufferedStarts(f);
      if lnIdx < k {
        numOffsets := lnIdx;
      }
    }

    /** offset_reservoir_sample_input_via_mmap_with_fixed_k: offers the start
        of each line when its '\n' is reached; a trailing unterminated line
        is never offered. */
    method SampleViaMmapWithFixedK(f: seq<byte>, draw: nat -> Draw)
      requires Valid() && 0 < numOffsets
      modifies this, offsets
      ensures Valid() && offsets == old(offsets)
      ensures numOffsets == Min(old(numOffsets), |MmapStarts(f)|)
      ensures offsets[..] == Fill(old(offsets[..]), old(numOffsets), MmapStarts(f), draw)
    {
      var k := numOffsets;
      var startOffset := 0;
      var lnIdx := 0;
      var offsetIdx := 0;
      while offsetIdx < |f|
        invariant offsetIdx <= |f|
        invariant startOffset == LastStart(f[..offsetIdx])
        invariant lnIdx == |MmapStarts(f[..offsetIdx])|
        invariant offsets == old(offsets) && numOffsets == k
        invariant offsets[..] == Fill(old(offsets[..]), k, MmapStarts(f[..offsetIdx]), draw)
      {
        MmapStep(f, offsetIdx);
        if f[offsetIdx] == Newline {
          Offer(k, lnIdx, startOffset, draw(lnIdx));
          FillSnoc(old(offsets[..]), k, MmapStarts(f[..offsetIdx]), startOffset, draw);
          startOffset := offsetIdx + 1;
          lnIdx := lnIdx + 1;
        }
        offsetIdx := offsetIdx + 1;
      }
      assert f[..offsetIdx] == f;
      if lnIdx < k {
        numOffsets := lnIdx;
      }
    }

    /** The realloc of the unspecified-k path: a larger buffer holding the
        old contents at the front. */
    method Resize(len: nat)
      requires offsets.Length <= len
      modifies this
      ensures fresh(offsets) && offsets.Length == len
      ensures offsets[..old(offsets.Length)] == old(offsets[..])
      ensures numOffsets == old(numOffsets)
    {
      var resized := new int[len];
      var i := 0;
      while i < offsets.Length
        invariant 0 <= i <= offsets.Length
        invariant offsets == old(offsets) && numOffsets == old(numOffsets)
        invariant forall j :: 0 <= j < i ==> resized[j] == offsets[j]
      {
        resized[i] := offsets[i];
        i := i + 1;
      }
      offsets := resized;
    }

    /** offset_reservoir_shuffle_input_via_cstdio_with_unspecified_k: every
        chunk offset collected, then all of them shuffled. */
    method ShuffleViaCstdioWithUnspecifiedK(f: seq<byte>, pick: nat -> RandValue)
      requires Valid() && numOffsets == offsets.Length
      modifies this, offsets
      ensures Valid()
      ensures offsets == old(offsets) || fresh(offsets)
      ensures numOffsets == |BufferedStarts(f)|
      ensures offsets.Length == CapacityAfter(old(numOffsets), numOffsets)
      ensures offsets[..numOffsets] == Shuffled(BufferedStarts(f), pick)
    {
      CollectViaCstdio(f);
      ShuffleOffsets(pick);
    }

    /** The scan of the unspecified-k path: stores the offset before each
        fgets chunk, growing the buffer by SampleSizeIncrement whenever the
        line index reaches its capacity; the count becomes the line count. */
    method CollectViaCstdio(f: seq<byte>)
      requires Valid() && numOffsets == offsets.Length
      modifies this, offsets
      ensures Valid()
      ensures offsets == old(offsets) || fresh(offsets)
      ensures numOffsets == |BufferedStarts(f)|
      ensures offsets.Length == CapacityAfter(old(numOffsets), numOffsets)
      ensures offsets[..numOffsets] == BufferedStarts(f)
    {
      ghost var k0 := numOffsets;
      var k := numOffsets;
      var startOffset: nat := 0;
      var lnIdx := 0;
      ghost var scanned: seq<nat> := [];
      while startOffset < |f|
        invariant startOffset <= |f|
        invariant scanned + ChunkStartsFrom(f, startOffset) == BufferedStarts(f)
        invariant lnIdx == |scanned| <= k
        invariant k == offsets.Length == CapacityAfter(k0, lnIdx)
        invariant offsets[..lnIdx] == scanned
        invariant offsets == old(offsets) || fresh(offsets)
        decreases |f| - startOffset
      {
        CapacityBounds(k0, lnIdx);
        if lnIdx == k {
          k := k + SampleSizeIncrement;
          Resize(k);
        }
        offsets[lnIdx] := startOffset;
        ChunkStartsStep(f, scanned, startOffset);
        scanned := scanned + [startOffset];
        startOffset := ChunkEnd(f, startOffset);
        lnIdx := lnIdx + 1;
      }
      numOffsets := lnIdx;
    }

    /** The Fisher–Yates loop of the unspecified-k path over the first
        numOffsets slots, from the last index down to 1. */
    method ShuffleOffsets(pick: nat -> RandValue)
      requires Valid()
      modifies offsets
      ensures offsets[..numOffsets] == Shuffled(old(offsets[..numOffsets]), pick)
      ensures offsets[numOffsets..] == old(offsets[numOffsets..])
    {
      var n := numOffsets;
      ghost var original := offsets[..n];
      var shufIdx := n - 1;
      while shufIdx > 0
        invariant -1 <= shufIdx < n
        invariant ShuffleFrom(offsets[..n], shufIdx, pick) == Shuffled(original, pick)
        invariant offsets[n..] == old(offsets[n..])
      {
        ghost var before := offsets[..n];
        var randIdx := ShuffleIndex(pick(shufIdx), shufIdx);
        SwapSlots(shufIdx, randIdx, n);
        ShuffleFromStep(before, shufIdx, offsets[..n], pick);
        shufIdx := shufIdx - 1;
      }
    }

    /** sort_offset_reservoir_ptr_offsets: orders offsets[0..numOffsets)
        ascending by offset_compare (qsort's algorithm belongs to the C
        library; an insertion sort with the same comparator stands for it). */
    method SortOffsets()
      requires Valid()
      modifies offsets
      ensures Ascending(offsets[..numOffsets])
      ensures multiset(offsets[..numOffsets]) == old(multiset(offsets[..numOffsets]))
      ensures offsets[numOffsets..] == old(offsets[numOffsets..])
    {
      var n := numOffsets;
      var i := 0;
      while i < n
        invariant 0 <= i <= n
        invariant forall a, b :: 0 <= a < b < i ==> offsets[a] <= offsets[b]
        invariant multiset(offsets[..n]) == old(multiset(offsets[..n]))
        invariant offsets[n..] == old(offsets[n..])
      {
        var j := i;
        while j > 0 && OffsetCompare(offsets[j - 1], offsets[j]) > 0
          invariant 0 <= j <= i
          invariant forall a, b :: 0 <= a < b <= i && a != j && b != j ==> offsets[a] <= offsets[b]
          invariant forall b :: j < b <= i ==> offsets[j] <= offsets[b]
          invariant multiset(offsets[..n]) == old(multiset(offsets[..n]))
          invariant offsets[n..] == old(offsets[n..])
        {
          SwapAdjacent(j, n);
          j := j - 1;
        }
        i := i + 1;
      }
      assert Ascending(offsets[..n]);
    }

    /** Exchanges offsets[i] and offsets[j] inside the first n slots. */
    method SwapSlots(i: int, j: int, n: int)
      requires 0 <= i < n && 0 <= j < n && n <= offsets.Length
      modifies offsets
      ensures offsets[..n] == Swap(old(offsets[..n]), i, j)
      ensures offsets[n..] == old(offsets[n..])
    {
      ghost var before := offsets[..n];
      var tempOffset := offsets[i];
      offsets[i] := offsets[j];
      offsets[j] := tempOffset;
      assert offsets[..n] == Swap(before, i, j);
    }

    /** The exchange of neighbours in the sort, stated slot by slot. */
    method SwapAdjacent(j: int, n: int)
      requires 0 < j < n <= offsets.Length
      modifies offsets
      ensures offsets[j - 1] == old(offsets[j]) && offsets[j] == old(offsets[j - 1])
      ensures forall p :: 0 <= p < offsets.Length && p != j - 1 && p != j ==> offsets[p] == old(offsets[p])
      ensures multiset(offsets[..n]) == old(multiset(offsets[..n]))
      ensures offsets[n..] == old(offsets[n..])
    {
      ghost var before := offsets[..n];
      SwapSlots(j - 1, j, n);
      SwapEffect(before, j - 1, j);
      assert forall p :: n <= p < offsets.Length ==> offsets[p] == offsets[n..][p - n];
    }

    /** print_offset_reservoir_sample_via_mmap: the line at each offset, copied
        from the mapping, in reservoir order. */
    method PrintViaMmap(f: seq<byte>) returns (out: seq<byte>)
      requires Valid()
      requires forall i :: 0 <= i < numOffsets ==> InMapping(f, offsets[i])
      ensures WithinFile(f, offsets[..numOffsets])
      ensures out == Emitted(f, offsets[..numOffsets])
    {
      ghost var offs := offsets[..numOffsets];
      out := [];
      var resIdx := 0;
      while resIdx < numOffsets
        invariant 0 <= resIdx <= numOffsets
        invariant out == Emitted(f, offs[..resIdx])
      {
        var line := CopyLineFromMapping(f, offsets[resIdx]);
        EmittedPrefixStep(f, offs, resIdx);
        out := out + line;
        resIdx := resIdx + 1;
      }
      assert offs[..resIdx] == offs;
    }

    /** print_sorted_offset_reservoir_sample_via_cstdio: the reads of
        ReadSortedChunks over the first numOffsets slots. */
    method PrintSortedViaCstdio(f: seq<byte>) returns (out: seq<byte>, seeks: seq<int>)
      requires Valid()
      requires forall i :: 0 <= i < numOffsets ==> 0 <= offsets[i] < |f|
      ensures WithinFile(f, offsets[..numOffsets])
      ensures out == Emitted(f, offsets[..numOffsets])
      ensures seeks == RelativeSeeks(f, offsets[..numOffsets], numOffsets)
      ensures forall i :: 0 <= i < numOffsets ==> PositionBefore(f, offsets[..numOffsets], i) + seeks[i] == offsets[i]
    {
      var offs := offsets[..numOffsets];
      out, seeks := ReadSortedChunks(f, offs);
      assert forall i :: 0 <= i < numOffsets ==> offs[i] == offsets[i];
    }

    /** print_unsorted_offset_reservoir_sample_via_cstdio: an absolute seek
        to each offset, then one fgets chunk printed. */
    method PrintUnsortedViaCstdio(f: seq<byte>) returns (out: seq<byte>)
      requires Valid()
      requires forall i :: 0 <= i < numOffsets ==> 0 <= offsets[i] < |f|
      ensures WithinFile(f, offsets[..numOffsets])
      ensures out == Emitted(f, offsets[..numOffsets])
    {
      ghost var offs := offsets[..numOffsets];
      out := [];
      var idx := 0;
      while idx < numOffsets
        invariant 0 <= idx <= numOffsets
        invariant out == Emitted(f, offs[..idx])
      {
        var filePosition := offsets[idx];
        var stop := ChunkEnd(f, filePosition);
        EmittedPrefixStep(f, offs, idx);
        out := out + f[filePosition..stop];
        idx := idx + 1;
      }
      assert offs[..idx] == offs;
    }
  }

  /** The loop of the sorted cstdio printer: it moves the file position with
      a relative seek of offs[idx] - previous_offset - previous_line_length,
      then prints one fgets chunk. `seeks` are the seek distances issued; each
      lands on its target offset. */
  method ReadSortedChunks(f: seq<byte>, offs: seq<int>) returns (out: seq<byte>, seeks: seq<int>)
    requires forall i :: 0 <= i < |offs| ==> 0 <= offs[i] < |f|
    ensures WithinFile(f, offs)
    ensures out == Emitted(f, offs)
    ensures seeks == RelativeSeeks(f, offs, |offs|)
    ensures forall i :: 0 <= i < |offs| ==> PositionBefore(f, offs, i) + seeks[i] == offs[i]
  {
    assert WithinFile(f, offs);
    var filePosition := 0;
    var previousOffset := 0;
    var previousLineLength := 0;
    out := [];
    seeks := [];
    var idx := 0;
    while idx < |offs|
      invariant 0 <= idx <= |offs|
      invariant out == Emitted(f, offs[..idx])
      invariant seeks == RelativeSeeks(f, offs, idx)
      invariant previousOffset == if idx == 0 then 0 else offs[idx - 1]
      invariant previousLineLength == if idx == 0 then 0 else |LineAt(f, offs[idx - 1])|
      invariant filePosition == PositionBefore(f, offs, idx)
    {
      var relative := offs[idx] - previousOffset - previousLineLength;
      assert relative == SeekDistance(f, offs, idx);
      seeks := seeks + [relative];
      assert filePosition + relative == offs[idx] by {
        RelativeSeeksLand(f, offs, idx + 1, idx);
      }
      filePosition := filePosition + relative;
      var stop := ChunkEnd(f, filePosition);
      var line := f[filePosition..stop];
      EmittedPrefixStep(f, offs, idx);
      out := out + line;
      previousLineLength := |line|;
      previousOffset := offs[idx];
      filePosition := stop;
      idx := idx + 1;
    }
    assert offs[..idx] == offs;
    forall i | 0 <= i < |offs|
      ensures PositionBefore(f, offs, i) + seeks[i] == offs[i]
    {
      RelativeSeeksLand(f, offs, |offs|, i);
    }
  }

  /** The inner loop of the mmap printer: copies f[off], f[off + 1], ...
      until it has copied a '\n' or LineLength bytes. */
  method CopyLineFromMapping(f: seq<byte>, off: int) returns (line: seq<byte>)
    requires InMapping(f, off)
    ensures line == LineAt(f, off)
  {
    ChunkEndStops(f, off);
    ghost var e := ChunkEnd(f, off);
    line := [];
    var mmapIdx := off;
    while mmapIdx < off + LineLength
      invariant off <= mmapIdx <= e
      invariant e < off + LineLength ==> mmapIdx < e
      invariant line == f[off..mmapIdx]
    {
      line := line + [f[mmapIdx]];
      if f[mmapIdx] == Newline {
        mmapIdx := mmapIdx + 1;
        break;
      }
      mmapIdx := mmapIdx + 1;
    }
    assert mmapIdx == e;
  }
}
