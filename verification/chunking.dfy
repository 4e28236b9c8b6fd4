/** Splitting the envelope into cookie-sized partitions.

    `SplitAsWritten` follows the Java method with `int` arithmetic. The
    partition count is `(int) Math.ceil((double) length / maxCookieSize)`. For
    32-bit operands both conversions to double are exact and the division
    rounds once, with an error of at most `(length / max) * 2^-53`, which is
    below `1 / max`. A quotient that is not an integer is at least `1 / max`
    away from every integer, so rounding never carries it onto one, and the
    count is exactly the integer ceiling. Partition `i` runs from `i * max` to
    `min(i * max + max, length - 1)`. That upper bound loses the envelope's
    last character, and `i * max + max` can wrap around past
    `Integer.MAX_VALUE`.

    `SplitFixed` is the evidently intended splitter: the upper bound is
    `min(i * max + max, length)`, computed without wrap-around.
 */
module Chunking {
  import opened Results

  const MaxInt: int := 0x7FFF_FFFF
  const MinInt: int := -0x8000_0000

  /** A value of Java's `int`. */
  predicate IsInt(x: int) {
    MinInt <= x <= MaxInt
  }

  /** Java `int` arithmetic: the result of an operation wrapped to 32 bits. */
  function Wrap(x: int): (r: int)
    ensures IsInt(r)
    ensures IsInt(x) ==> r == x
    ensures MaxInt < x <= 2 * MaxInt + 1 ==> r == x - 0x1_0000_0000
  {
    if IsInt(x) then x else (x - MinInt) % 0x1_0000_0000 + MinInt
  }

  /** The products the loop forms stay below `count * max`. */
  lemma MulBounds(i: nat, count: nat, max: int)
    requires i < count && max >= 1
    ensures 0 <= i * max && i * max + max == (i + 1) * max
    ensures (i + 1) * max <= count * max
    ensures i * max <= (count - 1) * max
  {
  }

  function Min(a: int, b: int): int {
    if a <= b then a else b
  }

  /** The partitions glued back together, in order. */
  function Concat(parts: seq<string>): string {
    if |parts| == 0 then [] else parts[0] + Concat(parts[1..])
  }

  /** A single cookie is the whole value. */
  lemma ConcatOne(parts: seq<string>)
    requires |parts| == 1
    ensures Concat(parts) == parts[0]
  {
    assert parts[1..] == [];
    assert Concat(parts) == parts[0] + [];
  }

  /** The partition count of line 65, followed by the array allocation of
      line 66, for an envelope longer than `max`. A zero `max` makes the
      quotient +Infinity, which the cast turns into `Integer.MAX_VALUE`: an
      array the VM refuses to allocate. A negative `max` gives a count of
      zero when the envelope is shorter than `-max`, and a negative count
      otherwise. */
  function PartitionCount(len: nat, max: int): (r: Result<nat>)
    requires len > max && IsInt(max)
    ensures max >= 1 ==> r.Ok? && (r.value - 1) * max < len <= r.value * max
    ensures max == 0 ==> r == Err(ArrayTooLarge)
    ensures max < 0 ==> (r == Ok(0) <==> len < -max)
    ensures max < 0 && len >= -max ==> r == Err(NegativeArraySize)
  {
    if max > 0 then
      CeilBounds(len, max);
      Ok((len + max - 1) / max)
    else if max == 0 then Err(ArrayTooLarge)
    else
      ZeroQuotient(len, -max);
      if len / -max == 0 then Ok(0)
      else Err(NegativeArraySize)
  }

  /** `(len + m - 1) / m` is the least multiple count covering `len`. */
  lemma CeilBounds(len: nat, m: int)
    requires m >= 1
    ensures var q := (len + m - 1) / m; q >= 0 && (q - 1) * m < len <= q * m
  {
    var q := (len + m - 1) / m;
    var rem := (len + m - 1) % m;
    assert len + m - 1 == q * m + rem && 0 <= rem < m;
    assert (q - 1) * m == q * m - m;
  }

  /** Integer division by a positive `m` is zero exactly below `m`. */
  lemma ZeroQuotient(len: nat, m: int)
    requires m >= 1
    ensures len / m == 0 <==> len < m
  {
    var q := len / m;
    assert len == q * m + len % m;
    if q >= 1 {
      assert q * m >= m;
    }
  }

  /** The loop of lines 67-71 from partition `i` on. `substring(from, to)`
      throws when `from` is negative, `to` is past the end, or `to < from`.
      There is one partition per remaining index, and none is the whole
      envelope, since line 69 caps each end at `sessionSize - 1`. */
  function PartitionsFrom(s: string, max: int, count: nat, i: nat): (r: Result<seq<string>>)
    requires IsInt(max) && count <= MaxInt
    ensures r.Ok? ==> |r.value| == if i < count then count - i else 0
    ensures r.Err? ==> r.error == StringIndexOutOfBounds
    ensures r.Ok? ==> forall j :: 0 <= j < |r.value| ==> |r.value[j]| < |s|
    decreases count - i
  {
    if i >= count then Ok([])
    else
      var from := Wrap(i * max);
      var to := Min(Wrap(from + max), |s| - 1);
      if from < 0 || to > |s| || to < from then Err(StringIndexOutOfBounds)
      else
        match PartitionsFrom(s, max, count, i + 1) {
          case Err(e) => Err(e)
          case Ok(rest) => Ok([s[from..to]] + rest)
        }
  }

  /** `serializeSession(..., maxCookieSize)` once the envelope is built. */
  function SplitAsWritten(s: string, max: int): (r: Result<seq<string>>)
    requires |s| <= MaxInt && IsInt(max)
    ensures |s| <= max ==> r == Ok([s])
  {
    if |s| <= max then Ok([s])
    else
      match PartitionCount(|s|, max) {
        case Err(e) => Err(e)
        case Ok(count) => PartitionsFrom(s, max, count, 0)
      }
  }

  /** The as-written partition `k`, for a positive `max`. */
  function AsWrittenPart(s: string, max: int, k: nat): string
    requires max >= 1 && k * max < |s|
  {
    s[k * max..Min(k * max + max, |s| - 1)]
  }

  /** The conditions under which no `int` in the loop wraps around: `count`
      is the ceiling of `|s| / max` and `count * max` fits in an `int`. */
  predicate NoOverflow(s: string, max: int, count: nat) {
    && 1 <= max <= MaxInt && |s| <= MaxInt && count <= MaxInt
    && (count - 1) * max < |s| && count * max <= MaxInt
  }

  /** An envelope longer than `max` whose partitions all fit the int range. */
  predicate Chunkable(s: string, max: int) {
    1 <= max < |s| <= MaxInt && NoOverflow(s, max, (|s| + max - 1) / max)
  }

  /** Without wrap-around, the loop from `i` on yields `count - i` partitions. */
  lemma {:induction false} PartitionsFromLength(s: string, max: int, count: nat, i: nat)
    requires NoOverflow(s, max, count) && i <= count
    ensures PartitionsFrom(s, max, count, i).Ok?
    ensures |PartitionsFrom(s, max, count, i).value| == count - i
    decreases count - i
  {
    if i < count {
      MulBounds(i, count, max);
      PartitionsFromLength(s, max, count, i + 1);
    }
  }

  /** Without wrap-around, the first partition of the loop from `i` on is
      the as-written partition `i`. */
  lemma PartitionsFromHead(s: string, max: int, count: nat, i: nat)
    requires NoOverflow(s, max, count) && i < count
    ensures PartitionsFrom(s, max, count, i).Ok?
    ensures 0 <= i * max < |s|
    ensures |PartitionsFrom(s, max, count, i).value| > 0
    ensures PartitionsFrom(s, max, count, i).value[0] == AsWrittenPart(s, max, i)
  {
    PartitionsFromLength(s, max, count, i);
    MulBounds(i, count, max);
    var from := i * max;
    assert Wrap(i * max) == from;
    assert Wrap(from + max) == from + max;
  }

  /** Without wrap-around, partition `j` of the loop from `i` on is the
      as-written partition `i + j`. */
  lemma {:induction false} PartitionsFromPart(s: string, max: int, count: nat, i: nat, j: nat)
    requires NoOverflow(s, max, count) && i + j < count
    ensures PartitionsFrom(s, max, count, i).Ok?
    ensures |PartitionsFrom(s, max, count, i).value| == count - i
    ensures 0 <= (i + j) * max < |s|
    ensures PartitionsFrom(s, max, count, i).value[j] == AsWrittenPart(s, max, i + j)
    decreases j
  {
    PartitionsFromLength(s, max, count, i);
    if j == 0 {
      PartitionsFromHead(s, max, count, i);
    } else {
      PartitionsFromHead(s, max, count, i);
      PartitionsFromPart(s, max, count, i + 1, j - 1);
      var parts := PartitionsFrom(s, max, count, i).value;
      var rest := PartitionsFrom(s, max, count, i + 1).value;
      assert parts == [parts[0]] + rest;
      assert i + 1 + (j - 1) == i + j;
      assert parts[j] == rest[j - 1];
    }
  }

  /** Past the end of the int range, the last partition's upper bound wraps
      to a negative number and `substring` throws. */
  lemma {:induction false} PartitionsFromOverflow(s: string, max: int, count: nat, i: nat)
    requires 1 <= max <= MaxInt && |s| <= MaxInt && count <= MaxInt
    requires (count - 1) * max < |s| && count * max > MaxInt
    requires i < count
    ensures PartitionsFrom(s, max, count, i) == Err(StringIndexOutOfBounds)
    decreases count - i
  {
    MulBounds(i, count, max);
    if i < count - 1 {
      MulBounds(i + 1, count, max);
      PartitionsFromOverflow(s, max, count, i + 1);
    }
  }

  /** For a positive `max` and an envelope longer than it, line 65 computes
      `ceil(len / max)`. */
  lemma CountIsCeiling(len: nat, max: int)
    requires 1 <= max <= MaxInt && max < len
    ensures PartitionCount(len, max) == Ok((len + max - 1) / max)
    ensures var count := (len + max - 1) / max; count >= 2 && (count - 1) * max < len <= count * max
  {
  }

  /** For a positive `max`, an envelope longer than it and no wrap-around,
      the as-written splitter yields `ceil(len / max)` partitions, partition
      `i` starting at `i * max` and at most `max` long. */
  lemma SplitAsWrittenShape(s: string, max: int)
    requires Chunkable(s, max)
    ensures var r := SplitAsWritten(s, max);
            && r.Ok? && |r.value| == (|s| + max - 1) / max
            && (forall i :: 0 <= i < |r.value| ==> i * max < |s| && r.value[i] == AsWrittenPart(s, max, i))
            && (forall i :: 0 <= i < |r.value| ==> |r.value[i]| <= max)
  {
    CountIsCeiling(|s|, max);
    var count := (|s| + max - 1) / max;
    PartitionsFromLength(s, max, count, 0);
    assert SplitAsWritten(s, max) == PartitionsFrom(s, max, count, 0);
    var parts := PartitionsFrom(s, max, count, 0).value;
    forall i | 0 <= i < |parts|
      ensures i * max < |s| && parts[i] == AsWrittenPart(s, max, i)
    {
      PartitionsFromPart(s, max, count, 0, i);
    }
    forall i | 0 <= i < |parts|
      ensures |parts[i]| <= max
    {
      AsWrittenPartSize(s, max, i);
    }
  }

  /** An as-written partition is at most `max` long. */
  lemma AsWrittenPartSize(s: string, max: int, k: nat)
    requires max >= 1 && k * max < |s|
    ensures |AsWrittenPart(s, max, k)| <= max
  {
  }

  /** When `ceil(len / max) * max` passes `Integer.MAX_VALUE`, the last
      partition's bound wraps around and the splitter throws. */
  lemma SplitAsWrittenOverflow(s: string, max: int)
    requires 1 <= max <= MaxInt && max < |s| <= MaxInt
    requires ((|s| + max - 1) / max) * max > MaxInt
    ensures SplitAsWritten(s, max) == Err(StringIndexOutOfBounds)
  {
    CountIsCeiling(|s|, max);
    PartitionsFromOverflow(s, max, (|s| + max - 1) / max, 0);
  }

  /** The as-written partitions from `i` on with the `int` arithmetic left
      out, for a positive `max`. */
  function UnwrappedFrom(s: string, max: int, count: nat, i: nat): (r: seq<string>)
    requires max >= 1 && |s| >= 1 && i <= count
    decreases count - i
  {
    if i == count then []
    else
      var from := Min(i * max, |s| - 1);
      [s[from..Min(from + max, |s| - 1)]] + UnwrappedFrom(s, max, count, i + 1)
  }

  /** Without wrap-around, the loop computes exactly the unwrapped
      partitions. */
  lemma {:induction false} PartitionsFromUnwrapped(s: string, max: int, count: nat, i: nat)
    requires NoOverflow(s, max, count) && |s| >= 1 && i <= count
    ensures PartitionsFrom(s, max, count, i) == Ok(UnwrappedFrom(s, max, count, i))
    decreases count - i
  {
    if i < count {
      MulBounds(i, count, max);
      PartitionsFromUnwrapped(s, max, count, i + 1);
      var from := i * max;
      assert Wrap(i * max) == from;
      assert Wrap(from + max) == from + max;
    }
  }

  /** The unwrapped partitions from `i` on glue back to the envelope from
      `i * max` up to, but excluding, its last character. */
  lemma {:induction false} ConcatUnwrappedFrom(s: string, max: int, count: nat, i: nat)
    requires Covers(s, max, count) && i < count
    ensures 0 <= i * max < |s|
    ensures Concat(UnwrappedFrom(s, max, count, i)) == s[i * max..|s| - 1]
    decreases count - i
  {
    MulBounds(i, count, max);
    var from := i * max;
    var parts := UnwrappedFrom(s, max, count, i);
    var rest := UnwrappedFrom(s, max, count, i + 1);
    assert parts == [s[from..Min(from + max, |s| - 1)]] + rest;
    if i + 1 < count {
      ConcatUnwrappedFrom(s, max, count, i + 1);
      assert from + max == (i + 1) * max;
      assert s[from..|s| - 1] == s[from..from + max] + s[from + max..|s| - 1];
    } else {
      assert (i + 1) * max >= |s|;
      assert rest == [];
      assert Concat(parts) == s[from..|s| - 1] + Concat([]);
    }
  }



  /** The line-69 defect: gluing the partitions back together gives the
      envelope without its last character. */
  lemma SplitAsWrittenDropsLastChar(s: string, max: int)
    requires Chunkable(s, max)
    ensures SplitAsWritten(s, max).Ok?
    ensures Concat(SplitAsWritten(s, max).value) == s[..|s| - 1]
  {
    CountIsCeiling(|s|, max);
    var count := (|s| + max - 1) / max;
    PartitionsFromUnwrapped(s, max, count, 0);
    ConcatUnwrappedFrom(s, max, count, 0);
  }

  /** Cancelling a positive factor from an inequality between products. */
  lemma MulCancel(a: int, b: int, m: int)
    requires m >= 1 && a * m <= b * m
    ensures a <= b
  {
  }

  /** Cancelling a positive factor from a strict inequality between products. */
  lemma MulCancelStrict(a: int, b: int, m: int)
    requires m >= 1 && a * m < b * m
    ensures a < b
  {
  }

  /** When the length is one more than a multiple `q * max`, the final
      partition is empty. */
  lemma SplitAsWrittenEmptyLast(s: string, max: int, q: nat)
    requires Chunkable(s, max)
    requires |s| == q * max + 1
    ensures SplitAsWritten(s, max).Ok?
    ensures var parts := SplitAsWritten(s, max).value;
            |parts| == q + 1 && parts[q] == ""
  {
    CountIsCeiling(|s|, max);
    var count := (|s| + max - 1) / max;
    MulCancel(count - 1, q, max);
    MulCancelStrict(q, count, max);
    PartitionsFromPart(s, max, count, 0, q);
  }

  /** The wrap-around defect on a concrete envelope: a string of
      `2^31 - 16` characters, within what a JVM string can hold, split at
      `2^30 + 1`. It takes two partitions, and the second one's end
      `2 * (2^30 + 1) = 2^31 + 2` wraps negative. */
  lemma SplitAsWrittenOverflowExample(s: string)
    requires |s| == MaxInt - 15
    ensures SplitAsWritten(s, 0x4000_0001) == Err(StringIndexOutOfBounds)
  {
    SplitAsWrittenOverflow(s, 0x4000_0001);
  }

  /** The corrected partitions from index `i` on, for a positive `max`. */
  function PartitionsFixedFrom(s: string, max: int, count: nat, i: nat): (r: seq<string>)
    requires max >= 1 && i <= count
    decreases count - i
  {
    if i == count then []
    else
      var from := Min(i * max, |s|);
      [s[from..Min(from + max, |s|)]] + PartitionsFixedFrom(s, max, count, i + 1)
  }

  /** The corrected splitter. Only the partition bounds change: for a
      non-positive `max` it fails (or returns no partitions) exactly as the
      original does. */
  function SplitFixed(s: string, max: int): (r: Result<seq<string>>)
    requires |s| <= MaxInt && IsInt(max)
    ensures |s| <= max ==> r == Ok([s])
    ensures max < 1 && |s| > max ==> r == SplitAsWritten(s, max)
  {
    if |s| <= max then Ok([s])
    else
      match PartitionCount(|s|, max) {
        case Err(e) => Err(e)
        case Ok(count) =>
          if max >= 1 then Ok(PartitionsFixedFrom(s, max, count, 0)) else Ok([])
      }
  }

  /** The corrected loop from `i` on yields `count - i` partitions. */
  lemma {:induction false} PartitionsFixedLength(s: string, max: int, count: nat, i: nat)
    requires max >= 1 && i <= count
    ensures |PartitionsFixedFrom(s, max, count, i)| == count - i
    decreases count - i
  {
    if i < count {
      PartitionsFixedLength(s, max, count, i + 1);
    }
  }

  /** The envelope's partitions, when `count` is the ceiling of its length
      over `max`. */
  predicate Covers(s: string, max: int, count: nat) {
    max >= 1 && (count - 1) * max < |s| <= count * max
  }

  /** Partition `j` of the corrected loop from `i` on is the piece of the
      envelope from `(i + j) * max`, `max` long or up to the end. */
  lemma {:induction false} PartitionsFixedPart(s: string, max: int, count: nat, i: nat, j: nat)
    requires Covers(s, max, count) && i + j < count
    ensures |PartitionsFixedFrom(s, max, count, i)| == count - i
    ensures 0 <= (i + j) * max < |s|
    ensures PartitionsFixedFrom(s, max, count, i)[j] == s[(i + j) * max..Min((i + j) * max + max, |s|)]
    decreases j
  {
    PartitionsFixedLength(s, max, count, i);
    MulBounds(i + j, count, max);
    if j > 0 {
      PartitionsFixedPart(s, max, count, i + 1, j - 1);
      var parts := PartitionsFixedFrom(s, max, count, i);
      var rest := PartitionsFixedFrom(s, max, count, i + 1);
      assert parts == [parts[0]] + rest;
      assert i + 1 + (j - 1) == i + j;
      assert parts[j] == rest[j - 1];
    }
  }

  /** The corrected partitions from `i` on glue back to the envelope from
      `i * max` to its end. */
  lemma {:induction false} ConcatFixedFrom(s: string, max: int, count: nat, i: nat)
    requires Covers(s, max, count) && i < count
    ensures 0 <= i * max < |s|
    ensures Concat(PartitionsFixedFrom(s, max, count, i)) == s[i * max..]
    decreases count - i
  {
    MulBounds(i, count, max);
    var from := i * max;
    var parts := PartitionsFixedFrom(s, max, count, i);
    var rest := PartitionsFixedFrom(s, max, count, i + 1);
    assert parts == [s[from..Min(from + max, |s|)]] + rest;
    if i + 1 < count {
      ConcatFixedFrom(s, max, count, i + 1);
      assert from + max == (i + 1) * max;
      assert s[from..] == s[from..from + max] + s[from + max..];
    } else {
      assert (i + 1) * max >= |s|;
      assert rest == [];
      assert Concat(parts) == s[from..|s|] + Concat([]);
    }
  }

  /** Each corrected partition is non-empty and at most `max` long. */
  lemma PartitionsFixedSizes(s: string, max: int, count: nat)
    requires Covers(s, max, count)
    ensures var parts := PartitionsFixedFrom(s, max, count, 0);
            |parts| == count && forall j :: 0 <= j < |parts| ==> 0 < |parts[j]| <= max
  {
    var parts := PartitionsFixedFrom(s, max, count, 0);
    PartitionsFixedLength(s, max, count, 0);
    forall j | 0 <= j < |parts|
      ensures 0 < |parts[j]| <= max
    {
      PartitionsFixedPart(s, max, count, 0, j);
    }
  }

  /** The corrected splitter reassembles: for a positive `max` the
      partitions glue back to the whole envelope, there are
      `ceil(len / max)` of them when the envelope is longer than `max`, and
      each is non-empty and at most `max` long. */
  lemma SplitFixedReassembles(s: string, max: int)
    requires 1 <= max <= MaxInt && |s| <= MaxInt
    ensures SplitFixed(s, max).Ok?
    ensures Concat(SplitFixed(s, max).value) == s
    ensures var parts := SplitFixed(s, max).value;
            forall j :: 0 <= j < |parts| ==> |parts[j]| <= max
    ensures |s| > max ==>
              var parts := SplitFixed(s, max).value;
              && |parts| == (|s| + max - 1) / max
              && forall j :: 0 <= j < |parts| ==> 0 < |parts[j]|
  {
    if |s| <= max {
      assert Concat([s]) == s + Concat([]);
    } else {
      CountIsCeiling(|s|, max);
      var count := (|s| + max - 1) / max;
      ConcatFixedFrom(s, max, count, 0);
      PartitionsFixedSizes(s, max, count);
    }
  }

  /** Corrected partition `j` starts at `j * max`. */
  lemma SplitFixedPart(s: string, max: int, j: nat)
    requires 1 <= max <= MaxInt && max < |s| <= MaxInt
    requires j < (|s| + max - 1) / max
    ensures SplitFixed(s, max).Ok? && j < |SplitFixed(s, max).value|
    ensures j * max < |s|
    ensures SplitFixed(s, max).value[j] == s[j * max..Min(j * max + max, |s|)]
  {
    CountIsCeiling(|s|, max);
    PartitionsFixedPart(s, max, (|s| + max - 1) / max, 0, j);
  }

  /** A 340-character envelope at 100 characters per cookie: four partitions
      either way, but only the corrected ones glue back to all 340. */
  lemma Split340Example(s: string)
    requires |s| == 340
    ensures SplitAsWritten(s, 100).Ok? && |SplitAsWritten(s, 100).value| == 4
    ensures |Concat(SplitAsWritten(s, 100).value)| == 339
    ensures SplitFixed(s, 100).Ok? && |SplitFixed(s, 100).value| == 4
    ensures Concat(SplitFixed(s, 100).value) == s
  {
    SplitAsWrittenShape(s, 100);
    SplitAsWrittenDropsLastChar(s, 100);
    SplitFixedReassembles(s, 100);
  }
}
