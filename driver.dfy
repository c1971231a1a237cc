/** The decisions `main` of reservoir-sample.c takes once the command line is
    parsed: which scan fills the reservoir, whether it is sorted, which
    printer writes it, and the configurations it refuses. */
module Driver {
  import opened Defs
  import opened LineScan
  import opened Sampling
  import opened Emission
  import opened Reservoir

  datatype Option<T> = None | Some(value: T)

  datatype Replacement = WithoutReplacement | WithReplacement

  /** How the input is read: memory-mapped, through stdio, or scanned through
      stdio and printed from a mapping. */
  datatype Backend = Mmap | Cstdio | Hybrid

  /** The parsed options: the -k value if one was given, the sampling and
      ordering choice, the I/O backend, and the single file name. */
  datatype Config = Config(
    sampleSize: Option<int>,
    replacement: Replacement,
    preserveOrder: bool,
    backend: Backend,
    fileName: Option<string>)

  /** The ways `main` ends with EXIT_FAILURE before printing a sample.
      MapFailed is new_file_mmap's exit when mmap refuses the mapping, which
      it does for a file of size 0. */
  datatype Error =
    | UsageError
    | StdinNotSupported
    | UnspecifiedKWithMmap
    | WithReplacementNotSupported
    | MapFailed

  datatype Result<T> = Ok(value: T) | Err(error: Error)

  datatype Scan = CstdioFixedK | CstdioShuffleAll | MmapFixedK

  datatype Emit = EmitViaMmap | EmitSortedCstdio | EmitUnsortedCstdio

  /** What a successful run does: a reservoir of k slots, filled by `scan`,
      sorted when `sortFirst`, printed by `emit`. */
  datatype Plan = Plan(k: int, scan: Scan, sortFirst: bool, emit: Emit)

  /** The k main works with: the -k value, or 0 + DEFAULT_SAMPLE_SIZE_INCREMENT
      when none was given. */
  function EffectiveK(c: Config): (k: int)
    ensures c.sampleSize.None? ==> k == SampleSizeIncrement
  {
    match c.sampleSize
    case Some(k) => k
    case None => 0 + SampleSizeIncrement
  }

  /** The checks and branches of main in the order it takes them, for a
      file of `fileSize` bytes: the k and file-name check; sampling with
      replacement; stdin, refused by every scan; on the mmap backend the
      mapping, made before the path looks at k, and then k; on the hybrid
      backend the mapping made for printing, after the scan. */
  function Dispatch(c: Config, fileSize: nat): (r: Result<Plan>)
    ensures r.Ok? ==> 0 < r.value.k == EffectiveK(c) && r.value.sortFirst == c.preserveOrder
    ensures r.Ok? && r.value.emit == EmitSortedCstdio ==> r.value.sortFirst
    ensures r.Ok? && r.value.emit == EmitUnsortedCstdio ==> !r.value.sortFirst
    ensures r.Ok? ==> (r.value.scan == MmapFixedK <==> c.backend == Mmap)
    ensures r.Ok? && r.value.scan == MmapFixedK ==> r.value.emit == EmitViaMmap
    ensures r.Ok? ==> (r.value.scan == CstdioShuffleAll <==> c.sampleSize.None?)
    ensures r.Ok? && c.backend == Cstdio ==>
      r.value.emit == (if c.preserveOrder then EmitSortedCstdio else EmitUnsortedCstdio)
    ensures r.Ok? && c.backend != Cstdio ==> r.value.emit == EmitViaMmap
    ensures r.Ok? && c.backend == Hybrid ==> 0 < fileSize
    ensures r.Ok? && c.backend == Mmap ==> 0 < fileSize
  {
    var k := EffectiveK(c);
    if k <= 0 || c.fileName.None? then Err(UsageError)
    else if c.replacement == WithReplacement then Err(WithReplacementNotSupported)
    else if c.fileName.value == "-" then Err(StdinNotSupported)
    else if c.backend == Mmap && fileSize == 0 then Err(MapFailed)
    else if c.backend == Mmap && c.sampleSize.None? then Err(UnspecifiedKWithMmap)
    else if c.backend == Hybrid && fileSize == 0 then Err(MapFailed)
    else
      var scan :=
        if c.backend == Mmap then MmapFixedK
        else if c.sampleSize.Some? then CstdioFixedK
        else CstdioShuffleAll;
      var emit :=
        if c.backend != Cstdio then EmitViaMmap
        else if c.preserveOrder then EmitSortedCstdio
        else EmitUnsortedCstdio;
      Ok(Plan(k, scan, c.preserveOrder, emit))
  }

  /** The options main accepts before it looks at the backend: a positive k,
      a file name other than "-", sampling without replacement. */
  predicate Admissible(c: Config)
  {
    EffectiveK(c) > 0 && c.fileName.Some? && c.fileName != Some("-") && c.replacement == WithoutReplacement
  }

  /** The refusals of main: exactly these configurations fail, each with the
      error main reports first. */
  lemma DispatchErrors(c: Config, fileSize: nat)
    ensures Dispatch(c, fileSize).Err? <==>
      EffectiveK(c) <= 0 || c.fileName.None? || c.replacement == WithReplacement ||
      c.fileName == Some("-") || (c.backend == Mmap && c.sampleSize.None?) ||
      (c.backend != Cstdio && fileSize == 0)
    ensures (EffectiveK(c) <= 0 || c.fileName.None?) ==> Dispatch(c, fileSize) == Err(UsageError)
    ensures EffectiveK(c) > 0 && c.fileName.Some? && c.replacement == WithReplacement ==>
      Dispatch(c, fileSize) == Err(WithReplacementNotSupported)
    ensures EffectiveK(c) > 0 && c.replacement == WithoutReplacement && c.fileName == Some("-") ==>
      Dispatch(c, fileSize) == Err(StdinNotSupported)
    ensures Admissible(c) && c.backend != Cstdio && fileSize == 0 ==>
      Dispatch(c, fileSize) == Err(MapFailed)
    ensures Admissible(c) && c.backend == Mmap && 0 < fileSize && c.sampleSize.None? ==>
      Dispatch(c, fileSize) == Err(UnspecifiedKWithMmap)
  {
  }

  /** Hybrid mode scans with stdio (fixed or shuffled) and prints from the
      mapping, sorted or not. */
  lemma HybridPlan(c: Config, fileSize: nat)
    requires c.backend == Hybrid && Dispatch(c, fileSize).Ok?
    ensures Dispatch(c, fileSize).value.scan != MmapFixedK
    ensures Dispatch(c, fileSize).value.emit == EmitViaMmap
  {
  }

  /** The offsets a scan offers: every fgets chunk for the stdio scans, every
      '\n'-terminated line for the mmap scan. */
  function Offered(c: Config, f: seq<byte>): (r: seq<int>)
    ensures StrictlyIncreasing(r)
  {
    if c.backend == Mmap then
      MmapStartsAreTerminatedLineStarts(f);
      MmapStarts(f)
    else
      BufferedStartsShape(f);
      BufferedStarts(f)
  }

  /** What hybrid printing needs of the sample: the mmap printer stops inside
      the mapping at every offset it prints. */
  predicate HybridReadable(c: Config, f: seq<byte>, sample: seq<int>)
  {
    c.backend == Hybrid ==> forall x :: x in sample ==> InMapping(f, x)
  }

  /** In a file that ends with '\n' every chunk offset is readable in hybrid
      mode, whatever the sample. */
  lemma TerminatedFileHybridReadable(c: Config, f: seq<byte>, sample: seq<int>)
    requires |f| == 0 || f[|f| - 1] == Newline
    requires forall x :: x in sample ==> x in BufferedStarts(f)
    ensures HybridReadable(c, f, sample)
  {
    forall x | x in sample
      ensures InMapping(f, x)
    {
      BufferedStartBounds(f, x);
      TerminatedFileInMapping(f, x);
    }
  }

  /** The reservoir contents after the scan main chooses: Algorithm R's
      sample of the offered offsets for a given k, otherwise the Fisher–Yates
      shuffle of every chunk offset. */
  function Scanned(c: Config, f: seq<byte>, draw: nat -> Draw, pick: nat -> RandValue): (r: seq<int>)
    requires Dispatch(c, |f|).Ok?
    ensures forall x :: x in r ==> x in Offered(c, f)
    ensures c.sampleSize.None? ==> multiset(r) == multiset(BufferedStarts(f))
    ensures c.sampleSize.Some? && |Offered(c, f)| <= EffectiveK(c) ==> r == Offered(c, f)
    ensures c.sampleSize.Some? ==> |r| == Min(EffectiveK(c), |Offered(c, f)|)
    ensures c.sampleSize.Some? ==> forall s, t :: 0 <= s < t < |r| ==> r[s] != r[t]
  {
    if c.sampleSize.None? then
      var all := BufferedStarts(f);
      var r := Shuffled(all, pick);
      assert forall x :: x in r ==> x in all by {
        forall x | x in r
          ensures x in all
        {
          assert x in multiset(r);
        }
      }
      r
    else
      SampleFromLines(EffectiveK(c), Offered(c, f), draw);
      ReservoirSample(EffectiveK(c), Offered(c, f), draw)
  }

  /** main from the parsed options on, with the file's bytes `f` and the rand()
      results `draw` and `pick`: the outcome and the reservoir as printed. */
  method Run(c: Config, f: seq<byte>, draw: nat -> Draw, pick: nat -> RandValue)
    returns (outcome: Result<seq<byte>>, sample: seq<int>)
    requires Dispatch(c, |f|).Ok? ==> HybridReadable(c, f, Scanned(c, f, draw, pick))
    ensures outcome.Err? <==> Dispatch(c, |f|).Err?
    ensures outcome.Err? ==> outcome.error == Dispatch(c, |f|).error
    ensures outcome.Ok? ==> WithinFile(f, sample) && outcome.value == Emitted(f, sample)
    ensures outcome.Ok? && c.preserveOrder ==> Ascending(sample)
    ensures outcome.Ok? ==> multiset(sample) == multiset(Scanned(c, f, draw, pick))
    ensures outcome.Ok? && !c.preserveOrder ==> sample == Scanned(c, f, draw, pick)
    ensures outcome.Ok? && c.sampleSize.Some? ==> |sample| == Min(EffectiveK(c), |Offered(c, f)|)
    ensures outcome.Ok? && c.preserveOrder && c.backend != Mmap
      && (c.sampleSize.None? || |BufferedStarts(f)| <= EffectiveK(c))
      ==> outcome.value == f
    ensures outcome.Ok? && c.preserveOrder && c.backend == Mmap && LinesFit(f)
      && |MmapStarts(f)| <= EffectiveK(c)
      ==> outcome.value == f[..LastStart(f)]
  {
    var d := Dispatch(c, |f|);
    if d.Err? {
      return Err(d.error), [];
    }
    var plan := d.value;
    var res := ScanInto(c, plan, f, draw, pick);
    ghost var scanned := res.offsets[..res.numOffsets];
    if plan.sortFirst {
      res.SortOffsets();
    }
    sample := res.offsets[..res.numOffsets];
    assert multiset(sample) == multiset(scanned);
    forall i | 0 <= i < res.numOffsets
      ensures res.offsets[i] in Offered(c, f)
      ensures c.backend == Hybrid ==> InMapping(f, res.offsets[i])
    {
      assert res.offsets[i] == sample[i];
      assert sample[i] in multiset(scanned);
    }
    var out := EmitReservoir(c, plan, f, res);
    outcome := Ok(out);
    if c.preserveOrder {
      if c.backend != Mmap && (c.sampleSize.None? || |BufferedStarts(f)| <= EffectiveK(c)) {
        PreserveOrderRoundTrip(f, sample);
      } else if c.backend == Mmap && LinesFit(f) && |MmapStarts(f)| <= EffectiveK(c) {
        MmapPreserveOrderRoundTrip(f, sample);
      }
    }
  }

  /** The scan branch of main: a fresh reservoir of plan.k slots filled by
      the scan the plan names; its first numOffsets slots are Scanned. */
  method ScanInto(c: Config, plan: Plan, f: seq<byte>, draw: nat -> Draw, pick: nat -> RandValue)
    returns (res: OffsetReservoir)
    requires Dispatch(c, |f|) == Ok(plan)
    ensures fresh(res) && fresh(res.offsets) && res.Valid()
    ensures res.offsets[..res.numOffsets] == Scanned(c, f, draw, pick)
  {
    res := new OffsetReservoir(plan.k);
    ghost var initial := res.offsets[..];
    match plan.scan
    case CstdioFixedK =>
      res.SampleViaCstdioWithFixedK(f, draw);
      FillIsSample(initial, plan.k, BufferedStarts(f), draw);
    case MmapFixedK =>
      res.SampleViaMmapWithFixedK(f, draw);
      FillIsSample(initial, plan.k, MmapStarts(f), draw);
    case CstdioShuffleAll =>
      res.ShuffleViaCstdioWithUnspecifiedK(f, pick);
  }

  /** The print branch of main: the printer the plan names, over the offsets
      in the reservoir. */
  method EmitReservoir(c: Config, plan: Plan, f: seq<byte>, res: OffsetReservoir)
    returns (out: seq<byte>)
    requires Dispatch(c, |f|) == Ok(plan) && res.Valid()
    requires forall i :: 0 <= i < res.numOffsets ==> res.offsets[i] in Offered(c, f)
    requires c.backend == Hybrid ==> forall i :: 0 <= i < res.numOffsets ==> InMapping(f, res.offsets[i])
    ensures WithinFile(f, res.offsets[..res.numOffsets])
    ensures out == Emitted(f, res.offsets[..res.numOffsets])
  {
    forall i | 0 <= i < res.numOffsets
      ensures c.backend != Cstdio ==> InMapping(f, res.offsets[i])
      ensures c.backend != Mmap ==> 0 <= res.offsets[i] < |f|
    {
      OfferedReadable(c, f, res.offsets[i]);
    }
    match plan.emit
    case EmitViaMmap =>
      out := res.PrintViaMmap(f);
    case EmitSortedCstdio =>
      var seeks;
      out, seeks := res.PrintSortedViaCstdio(f);
    case EmitUnsortedCstdio =>
      out := res.PrintUnsortedViaCstdio(f);
  }

  /** Every offset a scan offers can be read back by the stdio printers, and
      every offset the mmap scan offers by the mmap printer. */
  lemma OfferedReadable(c: Config, f: seq<byte>, x: int)
    requires x in Offered(c, f)
    ensures c.backend == Mmap ==> InMapping(f, x)
    ensures c.backend != Mmap ==> 0 <= x < |f|
  {
    if c.backend == Mmap {
      MmapStartsInMapping(f);
    } else {
      BufferedStartBounds(f, x);
    }
  }
}
