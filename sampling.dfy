/** The specification side of the reservoir: the Algorithm R update applied
    by both fixed-k scans, the Fisher–Yates shuffle of the unspecified-k path,
    the fixed-increment growth of its buffer, and offset_compare. Random
    draws are inputs: `draw(i)` holds the two rand() results taken for
    line i, `pick(i)` the rand() result taken at shuffle step i. */
module Sampling {
  import opened Defs

  /** The two rand() results the fixed-k scans take for a line whose index is
      at least k: first the slot (rand() % k), then the acceptance value. */
  datatype Draw = Draw(slotRand: RandValue, acceptRand: RandValue)

  /** (double) k / (i + 1) > (double) u / RAND_MAX, compared exactly. */
  predicate Accepts(k: nat, i: nat, u: RandValue)
  {
    u * (i + 1) < k * RandMax
  }

  /** Accepts is the source's comparison of the two ratios, read as exact
      rationals: k / (i + 1) > u / RAND_MAX. */
  lemma AcceptsIsRatio(k: nat, i: nat, u: RandValue)
    ensures Accepts(k, i, u) <==> (k as real) / ((i + 1) as real) > (u as real) / (RandMax as real)
  {
    var a := (k as real) / ((i + 1) as real);
    var b := (u as real) / (RandMax as real);
    assert a * ((i + 1) as real) == k as real;
    assert b * (RandMax as real) == u as real;
    assert a > b <==> a * ((i + 1) as real) * (RandMax as real) > b * (RandMax as real) * ((i + 1) as real);
  }

  /** The slot a line may overwrite: rand() % k, always in [0, k). */
  function Slot(k: nat, d: Draw): (s: nat)
    requires 0 < k
    ensures s < k
  {
    d.slotRand % k
  }

  /** One line of a fixed-k scan: line i < k fills slot i; a later line
      overwrites slot Slot(k, d) when accepted and changes nothing otherwise. */
  function Step(res: seq<int>, k: nat, i: nat, off: int, d: Draw): (r: seq<int>)
    requires 0 < k <= |res|
    ensures |r| == |res|
  {
    if i < k then res[i := off]
    else if Accepts(k, i, d.acceptRand) then res[Slot(k, d) := off]
    else res
  }

  /** What one Step does to each slot. */
  lemma StepEffect(res: seq<int>, k: nat, i: nat, off: int, d: Draw)
    requires 0 < k <= |res|
    ensures var r := Step(res, k, i, off, d);
      (i < k ==> r[i] == off)
      && (i >= k ==> r[Slot(k, d)] == if Accepts(k, i, d.acceptRand) then off else res[Slot(k, d)])
      && (forall s :: 0 <= s < |res| && s != (if i < k then i else Slot(k, d)) ==> r[s] == res[s])
  {
  }

  /** The whole array after a fixed-k scan has offered `lines`, in order, to a
      reservoir of k slots whose array began as `res`. */
  function Fill(res: seq<int>, k: nat, lines: seq<int>, draw: nat -> Draw): (r: seq<int>)
    requires 0 < k <= |res|
    ensures |r| == |res|
    decreases |lines|
  {
    if lines == [] then res
    else
      var n := |lines| - 1;
      Step(Fill(res, k, lines[..n], draw), k, n, lines[n], draw(n))
  }

  /** Offering one more line to a fixed-k scan is one more Step. */
  lemma FillSnoc(res: seq<int>, k: nat, lines: seq<int>, x: int, draw: nat -> Draw)
    requires 0 < k <= |res|
    ensures Fill(res, k, lines + [x], draw) == Step(Fill(res, k, lines, draw), k, |lines|, x, draw(|lines|))
  {
    assert (lines + [x])[..|lines|] == lines;
  }

  /** The sample Algorithm R keeps of `lines`: all of them when there are at
      most k, otherwise k slots updated line by line. */
  function ReservoirSample(k: nat, lines: seq<int>, draw: nat -> Draw): (r: seq<int>)
    requires 0 < k
    ensures |r| == Min(k, |lines|)
    ensures |lines| <= k ==> r == lines
    decreases |lines|
  {
    if |lines| <= k then lines
    else
      var n := |lines| - 1;
      Step(ReservoirSample(k, lines[..n], draw), k, n, lines[n], draw(n))
  }

  /** The first min(k, n) slots after a scan hold the sample whatever the
      array held before; the slots past them are untouched. */
  lemma {:induction false} FillIsSample(res: seq<int>, k: nat, lines: seq<int>, draw: nat -> Draw)
    requires 0 < k <= |res|
    ensures Fill(res, k, lines, draw)[..Min(k, |lines|)] == ReservoirSample(k, lines, draw)
    ensures Fill(res, k, lines, draw)[Min(k, |lines|)..] == res[Min(k, |lines|)..]
    decreases |lines|
  {
    if lines != [] {
      var n := |lines|;
      var m := n - 1;
      var prev := Fill(res, k, lines[..m], draw);
      FillIsSample(res, k, lines[..m], draw);
      var cur := Fill(res, k, lines, draw);
      assert cur == Step(prev, k, m, lines[m], draw(m));
      StepEffect(prev, k, m, lines[m], draw(m));
      if n <= k {
        assert ReservoirSample(k, lines[..m], draw) == lines[..m];
        assert cur[..n] == prev[..m] + [lines[m]];
        assert lines == lines[..m] + [lines[m]];
      } else {
        var sm := ReservoirSample(k, lines[..m], draw);
        assert prev[..k] == sm;
        var sn := ReservoirSample(k, lines, draw);
        assert sn == Step(sm, k, m, lines[m], draw(m));
        StepEffect(sm, k, m, lines[m], draw(m));
        forall s | 0 <= s < k
          ensures cur[s] == sn[s]
        {
          assert prev[s] == sm[s];
        }
      }
    }
  }

  /** Every kept offset is one of the offered lines; when the lines are
      distinct (the scans offer strictly increasing offsets) no line is kept
      twice. */
  lemma {:induction false} SampleFromLines(k: nat, lines: seq<int>, draw: nat -> Draw)
    requires 0 < k
    ensures forall s :: 0 <= s < |ReservoirSample(k, lines, draw)| ==> ReservoirSample(k, lines, draw)[s] in lines
    ensures StrictlyIncreasing(lines) ==>
      forall s, t :: 0 <= s < t < |ReservoirSample(k, lines, draw)| ==>
        ReservoirSample(k, lines, draw)[s] != ReservoirSample(k, lines, draw)[t]
    decreases |lines|
  {
    if |lines| > k {
      var m := |lines| - 1;
      var prev := ReservoirSample(k, lines[..m], draw);
      SampleFromLines(k, lines[..m], draw);
      var cur := ReservoirSample(k, lines, draw);
      assert cur == Step(prev, k, m, lines[m], draw(m));
      StepEffect(prev, k, m, lines[m], draw(m));
      forall s | 0 <= s < |cur|
        ensures cur[s] in lines
      {
        if cur[s] != lines[m] {
          assert cur[s] == prev[s];
          assert prev[s] in lines[..m];
        }
      }
      if StrictlyIncreasing(lines) {
        assert StrictlyIncreasing(lines[..m]);
        forall s, t | 0 <= s < t < |cur|
          ensures cur[s] != cur[t]
        {
          var slot := Slot(k, draw(m));
          if s == slot || t == slot {
            var other := if s == slot then t else s;
            assert cur[other] == prev[other];
            assert prev[other] in lines[..m];
            var j :| 0 <= j < m && lines[..m][j] == prev[other];
            assert lines[j] < lines[m];
            assert prev[slot] in lines[..m];
          }
        }
      }
    }
  }

  /** The Fisher–Yates index: (long)(((double) rand() / RAND_MAX) * i),
      computed exactly; it is always in [0, i]. */
  function ShuffleIndex(r: RandValue, i: nat): (j: nat)
    ensures j <= i
  {
    assert r * i <= RandMax * i by {
      MulMonotone(r, RandMax, i);
    }
    (r * i) / RandMax
  }

  lemma MulMonotone(a: nat, b: nat, c: nat)
    requires a <= b
    ensures a * c <= b * c
  {
  }

  /** The sequence with the elements at i and j exchanged. */
  function Swap(s: seq<int>, i: nat, j: nat): (r: seq<int>)
    requires i < |s| && j < |s|
    ensures |r| == |s|
  {
    s[i := s[j]][j := s[i]]
  }

  /** Swap exchanges the two elements, leaves the others in place and keeps
      the multiset. */
  lemma SwapEffect(s: seq<int>, i: nat, j: nat)
    requires i < |s| && j < |s|
    ensures var r := Swap(s, i, j);
      r[i] == s[j] && r[j] == s[i]
      && (forall p :: 0 <= p < |s| && p != i && p != j ==> r[p] == s[p])
      && multiset(r) == multiset(s)
  {
  }

  /** The Fisher–Yates loop from index i down to 1: each step swaps the
      element at i with the one at ShuffleIndex(pick(i), i). */
  function ShuffleFrom(s: seq<int>, i: int, pick: nat -> RandValue): (r: seq<int>)
    requires i < |s|
    ensures |r| == |s|
    decreases i
  {
    if i <= 0 then s
    else ShuffleFrom(Swap(s, i, ShuffleIndex(pick(i), i)), i - 1, pick)
  }

  /** The loop only exchanges elements, so it keeps the multiset. */
  lemma {:induction false} ShuffleFromPermutes(s: seq<int>, i: int, pick: nat -> RandValue)
    requires i < |s|
    ensures multiset(ShuffleFrom(s, i, pick)) == multiset(s)
    decreases i
  {
    if i > 0 {
      var j := ShuffleIndex(pick(i), i);
      SwapEffect(s, i, j);
      ShuffleFromPermutes(Swap(s, i, j), i - 1, pick);
    }
  }

  /** One step of the Fisher–Yates loop at index i > 0. */
  lemma ShuffleFromStep(s: seq<int>, i: int, t: seq<int>, pick: nat -> RandValue)
    requires 0 < i < |s|
    requires t == Swap(s, i, ShuffleIndex(pick(i), i))
    ensures ShuffleFrom(s, i, pick) == ShuffleFrom(t, i - 1, pick)
  {
  }

  /** The full Fisher–Yates shuffle, from the last index down to 1: a
      permutation, and the identity on zero or one element. */
  function Shuffled(s: seq<int>, pick: nat -> RandValue): (r: seq<int>)
    ensures |r| == |s| && multiset(r) == multiset(s)
    ensures |s| <= 1 ==> r == s
  {
    ShuffleFromPermutes(s, |s| - 1, pick);
    ShuffleFrom(s, |s| - 1, pick)
  }

  /** The capacity of the unspecified-k buffer after `n` lines, starting from
      k0: before line index n - 1 is written, the buffer grows by
      SampleSizeIncrement when that index equals the capacity. */
  function CapacityAfter(k0: nat, n: nat): (cap: nat)
    ensures k0 <= cap
    decreases n
  {
    if n == 0 then k0
    else
      var c := CapacityAfter(k0, n - 1);
      if n - 1 == c then c + SampleSizeIncrement else c
  }

  /** The buffer always has room for every line collected so far, it only
      ever grows in whole increments, and it is the smallest such size. */
  lemma {:induction false} CapacityBounds(k0: nat, n: nat)
    ensures n <= CapacityAfter(k0, n)
    ensures k0 <= CapacityAfter(k0, n)
    ensures (CapacityAfter(k0, n) - k0) % SampleSizeIncrement == 0
    ensures CapacityAfter(k0, n) > k0 ==> CapacityAfter(k0, n) - SampleSizeIncrement < n
    decreases n
  {
    if n > 0 {
      CapacityBounds(k0, n - 1);
    }
  }

  /** offset_compare with the difference in ideal integers: 1 when
      off1 > off2 and -1 otherwise, never 0. */
  function OffsetCompare(off1: int, off2: int): (r: int)
    ensures r == 1 <==> off1 > off2
    ensures r == -1 <==> off1 <= off2
  {
    if off1 - off2 > 0 then 1 else -1
  }

  /** The conversion of a 64-bit difference to `int` as the compiler does it:
      the value modulo 2^32, in [-2^31, 2^31). */
  function Int32(x: int): (r: int)
    ensures -0x8000_0000 <= r < 0x8000_0000
    ensures (x - r) % 0x1_0000_0000 == 0
    ensures -0x8000_0000 <= x < 0x8000_0000 ==> r == x
  {
    (x + 0x8000_0000) % 0x1_0000_0000 - 0x8000_0000
  }

  /** offset_compare as written: `int off_diff = off1 - off2`. */
  function OffsetCompareAsWritten(off1: int, off2: int): (r: int)
    ensures r == 1 || r == -1
  {
    if Int32(off1 - off2) > 0 then 1 else -1
  }

  /** The as-written comparison agrees with the intended one while the two
      offsets are less than 2^31 bytes apart. */
  lemma AsWrittenAgreesNearby(off1: int, off2: int)
    requires -0x8000_0000 <= off1 - off2 < 0x8000_0000
    ensures OffsetCompareAsWritten(off1, off2) == OffsetCompare(off1, off2)
  {
  }

  /** Two offsets 2^31 bytes apart (a file over 2 GiB) compare the wrong way
      round: the later offset is reported as the smaller one. */
  lemma AsWrittenMisorders()
    ensures OffsetCompareAsWritten(0x8000_0000, 0) == -1
    ensures OffsetCompare(0x8000_0000, 0) == 1
  {
  }
}
