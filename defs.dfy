/** Shared definitions: the byte type, the constants of reservoir-sample.h,
    and two facts about ordered sequences of offsets used throughout. */
module Defs {

  /** One byte of the input file. */
  newtype byte = x: int | 0 <= x < 256

  /** The line terminator '\n'. */
  const Newline: byte := 10

  /** LINE_LENGTH_VALUE: the most bytes one read of a line may take. */
  const LineLength: nat := 65536

  /** DEFAULT_SAMPLE_SIZE_INCREMENT: the initial capacity when no sample
      size is given, and the step by which that capacity grows. */
  const SampleSizeIncrement: nat := 10000

  /** RAND_MAX of the C library (the glibc value); rand() returns a value
      in [0, RandMax]. */
  const RandMax: nat := 2147483647

  /** A value that rand() can return. */
  type RandValue = r: nat | r <= RandMax

  function Min(a: int, b: int): (m: int)
    ensures m <= a && m <= b && (m == a || m == b)
  {
    if a <= b then a else b
  }

  predicate StrictlyIncreasing(s: seq<int>)
  {
    forall i, j :: 0 <= i < j < |s| ==> s[i] < s[j]
  }

  predicate Ascending(s: seq<int>)
  {
    forall i, j :: 0 <= i < j < |s| ==> s[i] <= s[j]
  }

  /** Two strictly increasing sequences with the same elements are equal. */
  lemma {:induction false} StrictlyIncreasingUnique(a: seq<int>, b: seq<int>)
    requires StrictlyIncreasing(a) && StrictlyIncreasing(b)
    requires forall x :: x in a <==> x in b
    ensures a == b
  {
    assert |a| == 0 <==> |b| == 0 by {
      if |a| > 0 {
        assert a[0] in a;
      }
      if |b| > 0 {
        assert b[0] in b;
      }
    }
    if |a| > 0 {
      assert a[0] in a && b[0] in b;
      var ja :| 0 <= ja < |b| && b[ja] == a[0];
      var jb :| 0 <= jb < |a| && a[jb] == b[0];
      assert a[0] <= a[jb] && b[0] <= b[ja];
      assert a[0] == b[0];
      forall x
        ensures x in a[1..] <==> x in b[1..]
      {
        if x in a[1..] {
          var k :| 0 <= k < |a| - 1 && a[1..][k] == x;
          assert a[k + 1] == x && a[0] < x;
          assert x in a;
          var j :| 0 <= j < |b| && b[j] == x;
          assert j != 0;
          assert b[1..][j - 1] == x;
        }
        if x in b[1..] {
          var k :| 0 <= k < |b| - 1 && b[1..][k] == x;
          assert b[k + 1] == x && b[0] < x;
          assert x in b;
          var j :| 0 <= j < |a| && a[j] == x;
          assert j != 0;
          assert a[1..][j - 1] == x;
        }
      }
      StrictlyIncreasingUnique(a[1..], b[1..]);
      assert a == [a[0]] + a[1..];
      assert b == [b[0]] + b[1..];
    }
  }

  /** Two ascending sequences that are permutations of each other are equal:
      sorting determines its result. */
  lemma {:induction false} AscendingUnique(a: seq<int>, b: seq<int>)
    requires Ascending(a) && Ascending(b)
    requires multiset(a) == multiset(b)
    ensures a == b
    decreases |a|
  {
    assert |a| == |b| by {
      assert |a| == |multiset(a)| && |b| == |multiset(b)|;
    }
    if |a| > 0 {
      assert a[0] == b[0] by {
        AscendingHeadIsLeast(a, b[0]);
        AscendingHeadIsLeast(b, a[0]);
      }
      assert Ascending(a[1..]) && Ascending(b[1..]) && multiset(a[1..]) == multiset(b[1..]) by {
        AscendingTail(a);
        AscendingTail(b);
      }
      AscendingUnique(a[1..], b[1..]);
      assert a == [a[0]] + a[1..] && b == [b[0]] + b[1..];
    }
  }

  /** The head of an ascending sequence is at most any of its elements. */
  lemma AscendingHeadIsLeast(a: seq<int>, x: int)
    requires Ascending(a) && x in multiset(a)
    ensures 0 < |a| && a[0] <= x
  {
    assert x in a;
    var j :| 0 <= j < |a| && a[j] == x;
  }

  /** Dropping the head of an ascending sequence leaves an ascending sequence
      holding the other elements. */
  lemma AscendingTail(a: seq<int>)
    requires Ascending(a) && 0 < |a|
    ensures Ascending(a[1..])
    ensures multiset(a[1..]) == multiset(a) - multiset{a[0]}
  {
    assert a == [a[0]] + a[1..];
    assert multiset(a) == multiset{a[0]} + multiset(a[1..]);
  }

  lemma StrictlyIncreasingIsAscending(s: seq<int>)
    requires StrictlyIncreasing(s)
    ensures Ascending(s)
  {
  }
}
