/** How an object's payload is cut into segments and erasure-coded pieces (base/gfsppieceop/piece_op.go:43-85). */
module PieceSizes {
  import opened FixedWidth

  // ----- the formulas of the source -----

  function MaxSegmentPieceSize(payload: U64, max: U64): int {
    WrapI64(if payload > max then max else payload)
  }

  /** A conversion to uint32. */
  function Narrow(x: int): (r: U32)
    ensures 0 <= x < TWO_32 ==> r == x
  {
    x % TWO_32
  }

  /** The number of segments before it is narrowed to 32 bits. */
  function Needed(payload: nat, max: nat): nat
    requires max > 0
  {
    payload / max + if payload % max > 0 then 1 else 0
  }

  function SegmentPieceCount(payload: U64, max: U64): U32 {
    if max == 0 then 1 else Narrow(Needed(payload, max))
  }

  function SegmentPieceSize(payload: U64, index: U32, max: U64): int {
    var count := SegmentPieceCount(payload, max);
    if count == 1 then WrapI64(payload)
    else if index == Narrow(count - 1) then WrapI64(WrapI64(payload) - (count - 1) * WrapI64(max))
    else WrapI64(max)
  }

  function ECPieceSize(payload: U64, index: U32, max: U64, dataChunks: U32): int
    requires dataChunks > 0
  {
    var size := SegmentPieceSize(payload, index, max);
    TruncDiv(size, dataChunks) + if size > 0 && size % dataChunks != 0 then 1 else 0
  }

  // ----- cutting a payload, step by step -----

  /** Cuts full segments off the payload while more than one is left. */
  function Cut(payload: nat, max: nat): (sizes: seq<nat>)
    requires max > 0
  {
    if payload == 0 then []
    else if payload <= max then [payload]
    else [max] + Cut(payload - max, max)
  }

  function Sum(sizes: seq<int>): int {
    if sizes == [] then 0 else sizes[0] + Sum(sizes[1..])
  }

  /** A cut keeps every byte, and every segment has between 1 and max bytes. */
  lemma {:induction false} CutIsComplete(payload: nat, max: nat)
    requires max > 0
    ensures Sum(Cut(payload, max)) == payload
    ensures forall i :: 0 <= i < |Cut(payload, max)| ==> 1 <= Cut(payload, max)[i] <= max
  {
    if payload > max {
      CutIsComplete(payload - max, max);
      assert Cut(payload, max)[1..] == Cut(payload - max, max);
    }
  }

  /** The quotient that belongs to a remainder below the divisor. */
  lemma QuotientIs(x: nat, d: nat, q: nat, r: nat)
    requires x == q * d + r && r < d
    ensures x / d == q && x % d == r
  {
    NatDivision(x, d);
    if x / d < q {
      MulMonotone(d, x / d + 1, q);
    } else if x / d > q {
      MulMonotone(d, q + 1, x / d);
    }
  }

  lemma NeededForOneMore(payload: nat, max: nat)
    requires max > 0 && payload > max
    ensures Needed(payload, max) == 1 + Needed(payload - max, max) >= 2
  {
    var rest := payload - max;
    NatDivision(rest, max);
    QuotientIs(payload, max, rest / max + 1, rest % max);
    if rest / max == 0 {
      assert rest % max == rest;
    }
  }

  lemma NeededAtMostOne(payload: nat, max: nat)
    requires max > 0 && payload <= max
    ensures Needed(payload, max) == if payload == 0 then 0 else 1
  {
    if payload < max {
      QuotientIs(payload, max, 0, payload);
    } else {
      QuotientIs(payload, max, 1, 0);
    }
  }

  /** The cut in closed form: all segments are full except possibly the last. */
  lemma {:induction false} CutAt(payload: nat, max: nat, i: nat)
    requires max > 0
    ensures |Cut(payload, max)| == Needed(payload, max)
    ensures i < Needed(payload, max) ==>
              Cut(payload, max)[i] == if i == Needed(payload, max) - 1 then payload - i * max else max
  {
    hide Needed;
    if payload <= max {
      NeededAtMostOne(payload, max);
    } else {
      NeededForOneMore(payload, max);
      CutAt(payload - max, max, if i == 0 then 0 else i - 1);
      if 0 < i < Needed(payload, max) {
        assert Cut(payload, max)[i] == Cut(payload - max, max)[i - 1];
        assert payload - i * max == payload - max - (i - 1) * max;
      }
    }
  }

  // ----- the formulas against the cut -----

  function Sizes(payload: U64, max: U64): seq<int> {
    seq(SegmentPieceCount(payload, max), i requires 0 <= i < SegmentPieceCount(payload, max) =>
      SegmentPieceSize(payload, i, max))
  }

  /** The segment count fits 32 bits and the largest segment fits a signed 64-bit number. */
  predicate Representable(payload: U64, max: U64)
    requires max > 0
  {
    Needed(payload, max) < TWO_32 && (payload <= MAX_I64 || max <= MAX_I64)
  }

  /** Wrapping a 64-bit difference forgets that its operand was wrapped before. */
  lemma WrapOfWrapped(payload: U64, taken: nat)
    requires 0 <= payload - taken <= MAX_I64
    ensures WrapI64(WrapI64(payload) - taken) == payload - taken
  {
    if payload > MAX_I64 {
      assert WrapI64(payload) == payload - TWO_64;
      var x := payload - TWO_64 - taken;
      if x < MIN_I64 {
        assert x == -1 * TWO_64 + (payload - taken);
        assert x % TWO_64 == payload - taken;
      }
    }
  }

  lemma NotMoreThanNeeded(payload: nat, max: nat)
    requires max > 0 && payload > 0
    ensures 1 <= Needed(payload, max)
    ensures 1 <= payload - (Needed(payload, max) - 1) * max <= max
    ensures Needed(payload, max) == 1 <==> payload <= max
  {
    CutAt(payload, max, Needed(payload, max) - 1);
    CutIsComplete(payload, max);
    if payload > max {
      NeededForOneMore(payload, max);
    } else {
      NeededAtMostOne(payload, max);
    }
  }

  lemma LastSegment(payload: U64, max: U64)
    requires max > 0 && Needed(payload, max) < TWO_32 && max <= MAX_I64 && payload > max
    ensures SegmentPieceSize(payload, Needed(payload, max) - 1, max) == payload - (Needed(payload, max) - 1) * max
  {
    hide Needed, Narrow, WrapI64;
    NotMoreThanNeeded(payload, max);
    var taken := (Needed(payload, max) - 1) * max;
    MulMonotone(max, 0, Needed(payload, max) - 1);
    WrapOfWrapped(payload, taken);
  }

  /** A segment's formula gives the size of that segment of the cut. */
  lemma SizeIsCut(payload: U64, max: U64, i: U32)
    requires max > 0 && Representable(payload, max) && i < Needed(payload, max)
    ensures |Cut(payload, max)| == Needed(payload, max)
    ensures SegmentPieceSize(payload, i, max) == Cut(payload, max)[i]
  {
    hide Needed, Cut, WrapI64, Narrow;
    CutAt(payload, max, i);
    if payload == 0 {
      NeededAtMostOne(payload, max);
    } else {
      NotMoreThanNeeded(payload, max);
      if payload > max && i == Needed(payload, max) - 1 {
        hide SegmentPieceSize;
        LastSegment(payload, max);
      }
    }
  }

  /** The formulas cut the payload exactly when the counts and sizes can be represented. Beyond that either
      the number of segments is wrong or the first segment has a negative size. */
  lemma SizesAreTheCut(payload: U64, max: U64)
    requires max > 0
    ensures Sizes(payload, max) == Cut(payload, max) <==> Representable(payload, max)
  {
    hide SegmentPieceSize, Cut, WrapI64;
    var n := Needed(payload, max);
    CutAt(payload, max, 0);
    if Representable(payload, max) {
      forall i | 0 <= i < n
        ensures Sizes(payload, max)[i] == Cut(payload, max)[i]
      {
        SizeIsCut(payload, max, i);
      }
    } else if n < TWO_32 {
      NotMoreThanNeeded(payload, max);
      FirstIsNegative(payload, max);
    }
  }

  lemma FirstIsNegative(payload: U64, max: U64)
    requires max > MAX_I64 && payload > MAX_I64 && 0 < Needed(payload, max) < TWO_32
    ensures SegmentPieceSize(payload, 0, max) < 0
  {
    NotMoreThanNeeded(payload, max);
    hide Needed;
  }

  /** Together the segments hold exactly the payload; the first is the largest. */
  lemma SegmentsHoldThePayload(payload: U64, max: U64)
    requires max > 0 ==> Representable(payload, max)
    requires max == 0 ==> payload <= MAX_I64
    ensures Sum(Sizes(payload, max)) == payload
    ensures max > 0 ==> forall i :: 0 <= i < |Sizes(payload, max)| ==>
                          1 <= Sizes(payload, max)[i] <= MaxSegmentPieceSize(payload, max)
    ensures max > 0 && payload > 0 ==> Sizes(payload, max)[0] == MaxSegmentPieceSize(payload, max)
  {
    hide Needed;
    if max > 0 {
      SizesAreTheCut(payload, max);
      CutIsComplete(payload, max);
      CutAt(payload, max, 0);
      forall i | 0 <= i < |Cut(payload, max)|
        ensures Cut(payload, max)[i] <= payload
      {
        PartOfSum(Cut(payload, max), i);
      }
    } else {
      assert Sizes(payload, max) == [payload];
    }
  }

  lemma {:induction false} PartOfSum(sizes: seq<nat>, i: nat)
    requires i < |sizes|
    ensures 0 <= sizes[i] <= Sum(sizes)
  {
    if i == 0 {
      SumIsNat(sizes[1..]);
    } else {
      PartOfSum(sizes[1..], i - 1);
    }
  }

  lemma {:induction false} SumIsNat(sizes: seq<nat>)
    ensures Sum(sizes) >= 0
  {
    if sizes != [] {
      SumIsNat(sizes[1..]);
    }
  }

  // ----- erasure-coded pieces -----

  function ECSizes(payload: U64, max: U64, dataChunks: U32): seq<int>
    requires dataChunks > 0
  {
    seq(SegmentPieceCount(payload, max), i requires 0 <= i < SegmentPieceCount(payload, max) =>
      ECPieceSize(payload, i, max, dataChunks))
  }

  /** The piece size is the least with which dataChunks pieces cover the segment. */
  lemma ECPieceIsLeastCover(payload: U64, index: U32, max: U64, dataChunks: U32, other: int)
    requires dataChunks > 0 && SegmentPieceSize(payload, index, max) >= 0
    ensures ECPieceSize(payload, index, max, dataChunks) <= other <==>
            SegmentPieceSize(payload, index, max) <= dataChunks * other
  {
    var size, r := SegmentPieceSize(payload, index, max), ECPieceSize(payload, index, max, dataChunks);
    hide SegmentPieceSize;
    LeastCover(size, dataChunks, r, other);
  }

  lemma LeastCover(size: nat, n: nat, r: int, other: int)
    requires n > 0
    requires r == size / n + if size > 0 && size % n != 0 then 1 else 0
    ensures r <= other <==> size <= n * other
    ensures 0 <= n * r - size < n
  {
    NatDivision(size, n);
    if r <= other {
      MulMonotone(n, r, other);
    } else {
      MulMonotone(n, other, r - 1);
    }
  }

  /** The bytes by which n pieces exceed the segment they encode. */
  function Padding(n: int, piece: int, size: int): int {
    n * piece - size
  }

  lemma PaddingAdds(n: int, piece: int, size: int, pieces: int, sizes: int)
    ensures Padding(n, piece + pieces, size + sizes) == Padding(n, piece, size) + Padding(n, pieces, sizes)
  {
    assert n * (piece + pieces) == n * piece + n * pieces;
  }

  lemma OneMoreTimes(k: int, n: int)
    ensures (k + 1) * n == n + k * n
  {
  }

  lemma {:induction false} PaddingOfAll(sizes: seq<int>, pieces: seq<int>, n: nat)
    requires n > 0 && |sizes| == |pieces|
    requires forall i :: 0 <= i < |sizes| ==> 0 <= Padding(n, pieces[i], sizes[i]) < n
    ensures 0 <= Padding(n, Sum(pieces), Sum(sizes)) <= |sizes| * (n - 1)
  {
    if sizes != [] {
      hide Padding;
      PaddingOfAll(sizes[1..], pieces[1..], n);
      PaddingAdds(n, pieces[0], sizes[0], Sum(pieces[1..]), Sum(sizes[1..]));
      OneMoreTimes(|sizes| - 1, n - 1);
    }
  }

  /** The data pieces of all segments hold the payload and at most dataChunks - 1 padding bytes a segment. */
  lemma PiecesHoldThePayload(payload: U64, max: U64, dataChunks: U32)
    requires dataChunks > 0 && (max > 0 ==> Representable(payload, max)) && (max == 0 ==> payload <= MAX_I64)
    ensures payload <= dataChunks * Sum(ECSizes(payload, max, dataChunks))
                    <= payload + |Sizes(payload, max)| * (dataChunks - 1)
  {
    assert max == 0 ==> Sizes(payload, max) == [payload];
    hide SegmentPieceCount, SegmentPieceSize, Sum;
    var sizes, pieces := Sizes(payload, max), ECSizes(payload, max, dataChunks);
    SegmentsHoldThePayload(payload, max);
    forall i | 0 <= i < |sizes|
      ensures 0 <= Padding(dataChunks, pieces[i], sizes[i]) < dataChunks
    {
      assert sizes[i] == SegmentPieceSize(payload, i, max) >= 0;
      LeastCover(sizes[i], dataChunks, pieces[i], 0);
    }
    PaddingOfAll(sizes, pieces, dataChunks);
  }
}
