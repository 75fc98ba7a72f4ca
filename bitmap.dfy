/**
 * The collision bitmap of `src/bitmap.rs`: `size` 32-bit words, where bucket
 * `b` is bit `b & 0x1F` of word `b >> 5`.
 */
module Bitmaps {
  import opened Arith

  // ---------------------------------------------------------------------
  // One word
  // ---------------------------------------------------------------------

  /** `bucket >> 5`: the word that holds bucket `b`, as an index into `data`. */
  function WordIndex(b: u32): nat
  {
    b / 32
  }

  /** `bucket & 0x1F`: the position of bucket `b` inside its word, a 5-bit number. */
  function BitIndex(b: u32): bv5
  {
    (b % 32) as bv5
  }

  /** `1 << k`: the mask of bit `k`. */
  function Bit(k: bv5): bv32
  {
    1 << k
  }

  /** Whether bit `k` of `x` is set. */
  predicate IsSet(x: bv32, k: bv5)
  {
    x & Bit(k) != 0
  }

  lemma SetBitSame(x: bv32, k: bv5)
    ensures IsSet(x | Bit(k), k)
  {
  }

  lemma SetBitOther(x: bv32, k: bv5, j: bv5)
    requires j != k
    ensures (x | Bit(k)) & Bit(j) == x & Bit(j)
  {
  }

  /** Setting bit `k` sets bit `k` and leaves every other bit of the word as it was. */
  lemma SetBit(x: bv32, k: bv5, j: bv5)
    ensures IsSet(x | Bit(k), j) <==> IsSet(x, j) || j == k
  {
    if j == k {
      SetBitSame(x, k);
    } else {
      SetBitOther(x, k, j);
    }
  }

  lemma SingleBit(x: bv32, k: bv5)
    requires IsSet(x, k)
    ensures x & Bit(k) == Bit(k)
  {
  }

  lemma Absorb(x: bv32, m: bv32)
    requires x & m == m
    ensures x | m == x
  {
  }

  /** Setting a bit that is already set changes nothing. */
  lemma SetBitAgain(x: bv32, k: bv5)
    requires IsSet(x, k)
    ensures x | Bit(k) == x
  {
    SingleBit(x, k);
    Absorb(x, Bit(k));
  }

  lemma ZeroHasNoBits(k: bv5)
    ensures !IsSet(0, k)
  {
  }

  lemma SmallRoundTrip(n: nat)
    requires n < 32
    ensures (n as bv5) as int == n
  {
  }

  /** Within one word, two buckets have the same position exactly when they are the same bucket. */
  lemma SameBucket(b: u32, c: u32)
    requires WordIndex(b) == WordIndex(c)
    ensures BitIndex(b) == BitIndex(c) <==> b == c
  {
    SmallRoundTrip(b % 32);
    SmallRoundTrip(c % 32);
  }

  // ---------------------------------------------------------------------
  // The words as a value, by word index and bit position
  // ---------------------------------------------------------------------

  /** Whether bit `k` of word `i` is set; a word past the end has no bits. */
  predicate MarksAt(words: seq<bv32>, i: nat, k: bv5)
  {
    i < |words| && IsSet(words[i], k)
  }

  /** `words[i] |= 1 << k`. */
  function SetAt(words: seq<bv32>, i: nat, k: bv5): (r: seq<bv32>)
    requires i < |words|
    ensures |r| == |words|
  {
    words[i := words[i] | Bit(k)]
  }

  lemma MarksAtWord(words: seq<bv32>, i: nat, m: bv5)
    requires i < |words|
    ensures MarksAt(words, i, m) == IsSet(words[i], m)
  {
  }

  lemma SetAtMarksAt(words: seq<bv32>, i: nat, k: bv5, m: bv5)
    requires i < |words|
    ensures MarksAt(SetAt(words, i, k), i, m) == IsSet(words[i] | Bit(k), m)
  {
  }

  /** Setting bit `k` of word `i` sets it and leaves the other bits of that word alone. */
  lemma SetAtSameWord(words: seq<bv32>, i: nat, k: bv5, m: bv5)
    requires i < |words|
    ensures MarksAt(SetAt(words, i, k), i, m) <==> MarksAt(words, i, m) || m == k
  {
    SetAtMarksAt(words, i, k, m);
    MarksAtWord(words, i, m);
    SetBit(words[i], k, m);
  }

  /** Words that differ from `before` only by bit `k` of word `i` being set are `SetAt(before, i, k)`. */
  lemma UpdatedWord(before: seq<bv32>, after: seq<bv32>, i: nat, k: bv5)
    requires i < |before| == |after|
    requires after[i] == before[i] | Bit(k)
    requires forall j :: 0 <= j < |before| && j != i ==> after[j] == before[j]
    ensures after == SetAt(before, i, k)
  {
  }

  /** Setting a bit of word `i` leaves every other word alone. */
  lemma SetAtOtherWord(words: seq<bv32>, i: nat, k: bv5, j: nat, m: bv5)
    requires i < |words| && j != i
    ensures MarksAt(SetAt(words, i, k), j, m) == MarksAt(words, j, m)
  {
  }

  // ---------------------------------------------------------------------
  // The words as a value, by bucket
  // ---------------------------------------------------------------------

  /** Whether bucket `b` is marked in `words`: its word exists and its bit is set. */
  predicate Marks(words: seq<bv32>, b: u32)
  {
    MarksAt(words, WordIndex(b), BitIndex(b))
  }

  /** `n` zero words. */
  function Zeros(n: nat): (words: seq<bv32>)
    ensures |words| == n && forall i :: 0 <= i < n ==> words[i] == 0
  {
    seq(n, _ => 0)
  }

  /** The words after `data[bucket >> 5] |= 1 << (bucket & 0x1F)`. */
  function SetMark(words: seq<bv32>, bucket: u32): (r: seq<bv32>)
    requires WordIndex(bucket) < |words|
    ensures |r| == |words|
    ensures forall i :: 0 <= i < |words| && i != WordIndex(bucket) ==> r[i] == words[i]
  {
    SetAt(words, WordIndex(bucket), BitIndex(bucket))
  }

  /** No bucket is marked in words that are all zero. */
  lemma ZerosMarkNothing(n: nat, b: u32)
    ensures !Marks(Zeros(n), b)
  {
    if WordIndex(b) < n {
      ZeroHasNoBits(BitIndex(b));
    }
  }

  /** Setting a mark marks `bucket` and leaves every other bucket as it was. */
  lemma SetMarkMarksAll(words: seq<bv32>, bucket: u32)
    requires WordIndex(bucket) < |words|
    ensures forall c :: Marks(SetMark(words, bucket), c) <==> Marks(words, c) || c == bucket
  {
    forall c
      ensures Marks(SetMark(words, bucket), c) <==> Marks(words, c) || c == bucket
    {
      SetMarkMarks(words, bucket, c);
    }
  }

  /** `SetMarkMarksAll` for one bucket `c`. */
  lemma SetMarkMarks(words: seq<bv32>, bucket: u32, c: u32)
    requires WordIndex(bucket) < |words|
    ensures Marks(SetMark(words, bucket), c) <==> Marks(words, c) || c == bucket
  {
    if WordIndex(c) == WordIndex(bucket) {
      SetAtSameWord(words, WordIndex(bucket), BitIndex(bucket), BitIndex(c));
      SameBucket(bucket, c);
    } else {
      SetAtOtherWord(words, WordIndex(bucket), BitIndex(bucket), WordIndex(c), BitIndex(c));
    }
  }

  /** Setting a mark that is already there leaves the words unchanged. */
  lemma SetMarkAgain(words: seq<bv32>, bucket: u32)
    requires Marks(words, bucket)
    ensures SetMark(words, bucket) == words
  {
    SetBitAgain(words[WordIndex(bucket)], BitIndex(bucket));
  }

  /** Setting the same mark twice is setting it once. */
  lemma SetMarkIdempotent(words: seq<bv32>, bucket: u32)
    requires WordIndex(bucket) < |words|
    ensures SetMark(SetMark(words, bucket), bucket) == SetMark(words, bucket)
  {
    SetMarkMarks(words, bucket, bucket);
    SetMarkAgain(SetMark(words, bucket), bucket);
  }

  /** Word `b >> 5` exists exactly when `b` is below the `32 * size` bits of the map. */
  lemma InRangeIsCapacity(size: nat, b: u32)
    ensures WordIndex(b) < size <==> b < 32 * size
  {
  }

  // ---------------------------------------------------------------------
  // The bitmap
  // ---------------------------------------------------------------------

  class Bitmap {
    /** The number of words; never changes after `new`. */
    const size: nat
    const data: array<bv32>

    ghost predicate Valid()
      reads this
    {
      data.Length == size
    }

    /** Whether `test_and_set(b)` is allowed: `data[b >> 5]` exists. */
    predicate InRange(b: u32)
      reads this
    {
      WordIndex(b) < size
    }

    /** `Bitmap::new(size)`: `size` words, all zero, so no bucket is marked. */
    constructor (size: nat)
      ensures Valid() && this.size == size && fresh(data)
      ensures data[..] == Zeros(size)
      ensures forall b :: !Marks(data[..], b)
    {
      this.size := size;
      data := new bv32[size](_ => 0);
      new;
      assert data[..] == Zeros(size);
      forall b
        ensures !Marks(data[..], b)
      {
        ZerosMarkNothing(size, b);
      }
    }

    /**
     * `test_and_set(bucket)`: reports whether `bucket` was already marked and
     * marks it.
     */
    method TestAndSet(bucket: u32) returns (wasSet: bool)
      requires Valid() && InRange(bucket)
      modifies data
      ensures Valid()
      ensures wasSet == Marks(old(data[..]), bucket)
      ensures data[..] == SetMark(old(data[..]), bucket)
      ensures wasSet ==> data[..] == old(data[..])
      ensures forall c :: Marks(data[..], c) <==> Marks(old(data[..]), c) || c == bucket
    {
      ghost var before := data[..];
      wasSet := SetInWord(WordIndex(bucket), BitIndex(bucket));
      MarksAtWord(before, WordIndex(bucket), BitIndex(bucket));
      UpdatedWord(before, data[..], WordIndex(bucket), BitIndex(bucket));
      if wasSet {
        SetMarkAgain(old(data[..]), bucket);
      }
      SetMarkMarksAll(old(data[..]), bucket);
    }

    /**
     * The word-level part of `test_and_set`: tests bit `k` of `data[word]`
     * and, when it is clear, sets it.
     */
    method SetInWord(word: nat, k: bv5) returns (wasSet: bool)
      requires Valid() && word < size
      modifies data
      ensures wasSet == IsSet(old(data[word]), k)
      ensures data[word] == old(data[word]) | Bit(k)
      ensures forall i :: 0 <= i < size && i != word ==> data[i] == old(data[i])
    {
      if data[word] & Bit(k) != 0 {
        SetBitAgain(data[word], k);
        return true;
      }
      data[word] := data[word] | Bit(k);
      return false;
    }

    /** `clear()`: zeroes every word, so no bucket is marked. */
    method Clear()
      requires Valid()
      modifies data
      ensures Valid()
      ensures data[..] == Zeros(size)
      ensures forall b :: !Marks(data[..], b)
    {
      for i := 0 to size
        invariant forall k :: 0 <= k < i ==> data[k] == 0
      {
        data[i] := 0;
      }
      assert data[..] == Zeros(size);
      forall b
        ensures !Marks(data[..], b)
      {
        ZerosMarkNothing(size, b);
      }
    }
  }

  // ---------------------------------------------------------------------
  // Callers
  // ---------------------------------------------------------------------

  /** A second probe of the same bucket always reports a collision. */
  method ProbeTwice(bm: Bitmap, bucket: u32) returns (first: bool, second: bool)
    requires bm.Valid() && bm.InRange(bucket)
    modifies bm.data
    ensures first == Marks(old(bm.data[..]), bucket)
    ensures second
    ensures bm.data[..] == SetMark(old(bm.data[..]), bucket)
  {
    first := bm.TestAndSet(bucket);
    second := bm.TestAndSet(bucket);
    SetMarkIdempotent(old(bm.data[..]), bucket);
  }

  /** After `clear()`, `test_and_set` finds no bucket marked. */
  method ProbeAfterClear(bm: Bitmap, bucket: u32) returns (a: bool)
    requires bm.Valid() && bm.InRange(bucket)
    modifies bm.data
    ensures !a
    ensures bm.data[..] == SetMark(Zeros(bm.size), bucket)
  {
    bm.Clear();
    a := bm.TestAndSet(bucket);
  }

  /**
   * `test_bitmap`: in a fresh one-word bitmap, bucket 2 is not yet marked,
   * and marking it leaves the single word equal to 4.
   */
  method FreshBitmapProbe() returns (a: bool, words: seq<bv32>)
    ensures !a
    ensures words == [4]
  {
    var bm := new Bitmap(1);
    a := bm.TestAndSet(2);
    words := bm.data[..];
    assert Bit(BitIndex(2)) == 4;
  }
}
