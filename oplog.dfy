/** The operation log: the sequence of deltas a node has accepted, and the
    sums the merge computes over it. */
module OpLog {

  /** The sum of all entries of a log. */
  function Sum(s: seq<int>): int
  {
    if s == [] then 0 else s[0] + Sum(s[1..])
  }

  /** The sum of the entries of `s` from index `from` to the end; 0 when
      `from` is at or past the end. */
  function TailSum(s: seq<int>, from: nat): int
    decreases |s| - from
  {
    if from >= |s| then 0 else s[from] + TailSum(s, from + 1)
  }

  lemma {:induction false} SumConcat(a: seq<int>, b: seq<int>)
    ensures Sum(a + b) == Sum(a) + Sum(b)
  {
    if a == [] {
      assert a + b == b;
    } else {
      assert (a + b)[1..] == a[1..] + b;
      SumConcat(a[1..], b);
    }
  }

  /** The tail sum is the sum of the slice from `from` on. */
  lemma {:induction false} TailSumIsSliceSum(s: seq<int>, from: nat)
    requires from <= |s|
    ensures TailSum(s, from) == Sum(s[from..])
    decreases |s| - from
  {
    if from < |s| {
      assert s[from..][1..] == s[from + 1..];
      TailSumIsSliceSum(s, from + 1);
    }
  }

  /** The tail sum from the end of a prefix is the sum of what extends it. */
  lemma TailSumOfExtension(local: seq<int>, ext: seq<int>)
    ensures TailSum(local + ext, |local|) == Sum(ext)
  {
    TailSumIsSliceSum(local + ext, |local|);
    assert (local + ext)[|local|..] == ext;
  }

  /** Splitting a log at `k`: the whole sum is the sum of the head plus the
      tail sum from `k`. So the tail sum alone leaves out what the head adds. */
  lemma SumSplit(s: seq<int>, k: nat)
    requires k <= |s|
    ensures Sum(s) == Sum(s[..k]) + TailSum(s, k)
  {
    TailSumIsSliceSum(s, k);
    SumConcat(s[..k], s[k..]);
    assert s[..k] + s[k..] == s;
  }

  /** Go's `int` is 64 bits wide: the smallest value and the number of values. */
  const Int64Min: int := -0x8000_0000_0000_0000
  const Int64Modulus: int := 0x1_0000_0000_0000_0000

  /** The value a 64-bit two's-complement integer holds after an addition
      whose exact result is `x`: `x` brought into range modulo 2^64. */
  function Wrap64(x: int): (r: int)
    ensures Int64Min <= r < Int64Min + Int64Modulus
    ensures Int64Min <= x < Int64Min + Int64Modulus ==> r == x
    ensures (x - r) % Int64Modulus == 0
  {
    (x - Int64Min) % Int64Modulus + Int64Min
  }

  /** Wrapping after every addition gives what wrapping once at the end gives. */
  lemma WrapAddAbsorbs(a: int, b: int)
    ensures Wrap64(Wrap64(a) + b) == Wrap64(a + b)
  {
  }

  /** The merge's summing loop: adds `s[from]`, `s[from + 1]`, ... up to the
      end of `s` into a 64-bit accumulator that starts at 0, wrapping around
      on overflow. The result is the exact tail sum brought into range, and
      is the exact sum whenever that sum fits in 64 bits. */
  method SumFrom(s: seq<int>, from: nat) returns (newValue: int)
    requires from <= |s|
    ensures newValue == Wrap64(TailSum(s, from))
    ensures newValue == Wrap64(Sum(s[from..]))
    ensures Int64Min <= Sum(s[from..]) < Int64Min + Int64Modulus ==> newValue == Sum(s[from..])
  {
    newValue := 0;
    var i := from;
    while i < |s|
      invariant from <= i <= |s|
      invariant newValue == Wrap64(TailSum(s, from) - TailSum(s, i))
    {
      WrapAddAbsorbs(TailSum(s, from) - TailSum(s, i), s[i]);
      newValue := Wrap64(newValue + s[i]);
      i := i + 1;
    }
    TailSumIsSliceSum(s, from);
  }
}
