/** Frequency analysis (file_compressor.py lines 33-37). */
module Frequency {
  import opened Common

  /** A frequency table: byte value to occurrence count. A key that is absent reads as 0. */
  type Table = map<Byte, nat>

  /** `frequency.get(byte, 0)`; also what indexing a `defaultdict(int)` yields. */
  function Get(t: Table, b: Byte): nat
  {
    if b in t then t[b] else 0
  }

  /** `build_frequency_table`: one increment per byte of `data`, in order. Only bytes that
      occur become keys, as with a `defaultdict`. */
  function FrequencyTable(data: seq<Byte>): (t: Table)
    ensures forall b :: b in t <==> b in data
    ensures forall b :: Get(t, b) == multiset(data)[b]
    decreases |data|
  {
    if |data| == 0 then map[]
    else
      var t := FrequencyTable(data[..|data| - 1]);
      var x := data[|data| - 1];
      assert data == data[..|data| - 1] + [x];
      t[x := Get(t, x) + 1]
  }

  /** The sum of the counts of the bytes below `n`. */
  function SumBelow(t: Table, n: nat): nat
    requires n <= 256
  {
    if n == 0 then 0 else SumBelow(t, n - 1) + Get(t, n - 1)
  }

  /** With no counts the sum is 0. */
  lemma {:induction false} SumOfEmpty(n: nat)
    requires n <= 256
    ensures SumBelow(map[], n) == 0
  {
    if n > 0 {
      SumOfEmpty(n - 1);
    }
  }

  /** Incrementing the count of `x` raises the sum over a range by one exactly when `x` is in it. */
  lemma {:induction false} SumAfterIncrement(t: Table, x: Byte, n: nat)
    requires n <= 256
    ensures SumBelow(t[x := Get(t, x) + 1], n) == SumBelow(t, n) + (if x < n then 1 else 0)
  {
    if n > 0 {
      SumAfterIncrement(t, x, n - 1);
    }
  }

  /** The counts of the table sum to the length of the data. */
  lemma {:induction false} FrequencySum(data: seq<Byte>)
    ensures SumBelow(FrequencyTable(data), 256) == |data|
    decreases |data|
  {
    if |data| > 0 {
      var init := data[..|data| - 1];
      var x := data[|data| - 1];
      FrequencySum(init);
      SumAfterIncrement(FrequencyTable(init), x, 256);
      assert FrequencyTable(data) == FrequencyTable(init)[x := Get(FrequencyTable(init), x) + 1];
    } else {
      SumOfEmpty(256);
    }
  }

  /** No single count exceeds the sum of the counts. */
  lemma {:induction false} CountBelowSum(t: Table, b: Byte, n: nat)
    requires b < n <= 256
    ensures Get(t, b) <= SumBelow(t, n)
  {
    if b < n - 1 {
      CountBelowSum(t, b, n - 1);
    }
  }

  /** No count of the table exceeds the length of the data. */
  lemma CountBelowLength(data: seq<Byte>, b: Byte)
    ensures Get(FrequencyTable(data), b) <= |data|
  {
    FrequencySum(data);
    CountBelowSum(FrequencyTable(data), b, 256);
  }
}
