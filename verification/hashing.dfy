/**
  The dictionary's bucket function: a case-insensitive djb2. The accumulator
  starts at 5381 and, for each character, becomes `h * 33 + tolower(c)` in
  64-bit `unsigned long` arithmetic; the bucket is the accumulator modulo the
  bucket count N.
 */
module Hashing {
  import opened Ascii

  /** Number of buckets in the table. */
  const N: nat := 10000

  /** djb2's starting value. */
  const Seed: nat := 5381

  /** 2^64: `unsigned long` arithmetic wraps modulo this. */
  const Word64: nat := 0x1_0000_0000_0000_0000

  type u64 = x: int | 0 <= x < 0x1_0000_0000_0000_0000

  /** One djb2 round on a folded character, wrapping at 2^64. */
  function Step(h: u64, c: char): (next: u64) {
    (h * 33 + Lower(c) as int) % Word64
  }

  /** The accumulator after consuming `w` left to right from the seed. */
  function Accumulate(w: string): (h: u64) {
    if |w| == 0 then Seed else Step(Accumulate(w[..|w| - 1]), w[|w| - 1])
  }

  /** The bucket index of `w`. */
  function Hash(w: string): (index: nat)
    requires IsCString(w)
    ensures index < N
  {
    Accumulate(w) % N
  }

  /**
    The hash loop as written, with `(h << 5) + h + c` evaluated one
    `unsigned long` operation at a time: the shift and both additions each
    wrap at 2^64. It computes the same bucket as the djb2 fold.
   */
  method ComputeHash(w: string) returns (index: nat)
    requires IsCString(w)
    ensures index == Hash(w)
    ensures index < N
  {
    var h: u64 := Seed;
    var i := 0;
    while i < |w|
      invariant 0 <= i <= |w|
      invariant h == Accumulate(w[..i])
    {
      var c := Lower(w[i]) as int;
      var shifted := (h * 32) % Word64;
      var sum := (shifted + h) % Word64;
      ShiftAddIsStep(h, c);
      h := (sum + c) % Word64;
      assert w[..i + 1][..i] == w[..i];
      i := i + 1;
    }
    assert w[..i] == w;
    index := h % N;
  }

  /** Wrapping after each of shift, add and add gives the same value as wrapping once after `h * 33 + c`. */
  lemma ShiftAddIsStep(h: u64, c: int)
    requires 0 <= c < 128
    ensures (((h * 32) % Word64 + h) % Word64 + c) % Word64 == (h * 33 + c) % Word64
  {
    var q1 := (h * 32) / Word64;
    var s := (h * 32) % Word64 + h;
    var q2 := s / Word64;
    var t := s % Word64 + c;
    assert h * 33 + c == t + (q1 + q2) * Word64;
    ModMultiple(t, q1 + q2);
  }

  /** Adding a multiple of 2^64 does not change a value modulo 2^64. */
  lemma ModMultiple(t: int, k: int)
    ensures (t + k * Word64) % Word64 == t % Word64
  {
  }

  /** Every character is folded before it is mixed in, so folding the word first changes nothing. */
  lemma {:induction false} AccumulateIgnoresCase(w: string)
    ensures Accumulate(w) == Accumulate(LowerString(w))
    decreases |w|
  {
    if |w| > 0 {
      var p := w[..|w| - 1];
      AccumulateIgnoresCase(p);
      assert LowerString(w)[..|w| - 1] == LowerString(p);
    }
  }

  /** Words that agree after folding share a bucket. */
  lemma HashIgnoresCase(a: string, b: string)
    requires IsCString(a) && IsCString(b)
    requires LowerString(a) == LowerString(b)
    ensures Hash(a) == Hash(b)
  {
    AccumulateIgnoresCase(a);
    AccumulateIgnoresCase(b);
  }

  /** A word and its lower-cased form share a bucket. */
  lemma HashOfLowered(w: string)
    requires IsCString(w)
    ensures IsCString(LowerString(w))
    ensures Hash(w) == Hash(LowerString(w))
  {
    AccumulateIgnoresCase(w);
  }

  /** Words that `strcasecmp` calls equal share a bucket. */
  lemma CaseEqualSameBucket(a: string, b: string)
    requires IsCString(a) && IsCString(b)
    requires CaseCompare(a, b) == 0
    ensures Hash(a) == Hash(b)
  {
    CaseCompareZeroIff(a, b);
    HashIgnoresCase(a, b);
  }

  /** Concrete values: the empty word lands in bucket 5381, and "a" and "A" both in bucket 7670 (5381 * 33 + 97 = 177670). */
  lemma HashExamples()
    ensures Hash("") == 5381
    ensures Hash("a") == 7670
    ensures Hash("A") == 7670
  {
    assert "a"[..0] == "";
    assert "A"[..0] == "";
  }
}
