/** The splitter (SSL/local/vad.py, the loop after `merge_segment`).

    A merged interval in milliseconds becomes a sample range
    `[startIndex, endIndex)`. When a maximum is configured and the range is
    longer than `maxSize` samples, it is cut into pieces of
    `step = ceil(span / n)` samples, where `n = round(span / maxSize)`;
    otherwise it stays one piece. */
module Splitter {
  import opened Wrappers
  import opened Intervals
  import opened Arith

  /** `int(ms * sample_rate / 1000)`: Python's `int` truncates toward zero. */
  function MsToIndex(ms: int, sampleRate: nat): int
  {
    var p := ms * sampleRate;
    if p >= 0 then p / 1000 else -((-p) / 1000)
  }

  /** `int(max_duration * sample_rate)`, the maximum held in milliseconds. */
  function MaxSize(maxMs: nat, sampleRate: nat): nat
  {
    maxMs * sampleRate / 1000
  }

  /** Python's `round(a / b)`: the nearest integer, ties to the even one. */
  function RoundHalfEven(a: nat, b: nat): nat
    requires b > 0
  {
    var q, r := a / b, a % b;
    if 2 * r < b then q
    else if 2 * r > b then q + 1
    else if q % 2 == 0 then q
    else q + 1
  }

  /** `math.ceil(a / b)`. */
  function CeilDiv(a: nat, b: nat): nat
    requires b > 0
  {
    (a + b - 1) / b
  }

  /** A piece `speech[lo:hi]` of the recording. */
  datatype Piece = Piece(lo: int, hi: int)

  datatype SplitError = ZeroMaxSize  // `round(span / 0)` divides by zero

  /** `[Piece(l, min(l + step, hi)) for l in range(lo, hi, step)]`. */
  function Pieces(lo: int, hi: int, step: nat): seq<Piece>
    requires step > 0
    decreases hi - lo
  {
    if lo >= hi then [] else [Piece(lo, Min(lo + step, hi))] + Pieces(lo + step, hi, step)
  }

  lemma RoundPositive(a: nat, b: nat)
    requires 0 < b < a
    ensures RoundHalfEven(a, b) >= 1
  {
    DivAtLeastOne(a, b);
  }

  lemma DivAtLeastOne(a: nat, b: nat)
    requires 0 < b <= a
    ensures a / b >= 1
  {
    var q, r := a / b, a % b;
    assert a == b * q + r && r < b;
    MulLeft(b, q);
  }

  /** The number of pieces the long range `span` is cut into. */
  function PieceCount(span: nat, maxSize: nat): (n: nat)
    requires 0 < maxSize < span
    ensures n >= 1
  {
    RoundPositive(span, maxSize);
    RoundHalfEven(span, maxSize)
  }

  /** Samples per piece. */
  function Step(span: nat, maxSize: nat): nat
    requires 0 < maxSize < span
  {
    CeilDiv(span, PieceCount(span, maxSize))
  }

  /** The pieces of `[startIndex, endIndex)`. */
  function Split(startIndex: int, endIndex: int, maxSize: Option<nat>): Result<seq<Piece>, SplitError>
  {
    if maxSize.Some? && endIndex - startIndex > maxSize.value then
      if maxSize.value == 0 then
        Failure(ZeroMaxSize)
      else
        Success(Pieces(startIndex, endIndex, Step(endIndex - startIndex, maxSize.value)))
    else
      Success([Piece(startIndex, endIndex)])
  }

  /** The splitter: one piece, or the pieces cut by `CutRange`. */
  method SplitRange(startIndex: int, endIndex: int, maxSize: Option<nat>) returns (r: Result<seq<Piece>, SplitError>)
    ensures r == Split(startIndex, endIndex, maxSize)
  {
    if maxSize.Some? && endIndex - startIndex > maxSize.value {
      if maxSize.value == 0 {
        return Failure(ZeroMaxSize);
      }
      var segmentN := PieceCount(endIndex - startIndex, maxSize.value);
      var step := CeilDiv(endIndex - startIndex, segmentN);
      var segments := CutRange(startIndex, endIndex, step);
      r := Success(segments);
    } else {
      r := Success([Piece(startIndex, endIndex)]);
    }
  }

  /** The loop `for lindex in range(startIndex, endIndex, step)`, including
      its (never taken) skip of empty pieces. */
  method CutRange(startIndex: int, endIndex: int, step: nat) returns (segments: seq<Piece>)
    requires step > 0
    ensures segments == Pieces(startIndex, endIndex, step)
  {
    segments := [];
    var lindex := startIndex;
    while lindex < endIndex
      invariant segments + Pieces(lindex, endIndex, step) == Pieces(startIndex, endIndex, step)
      decreases endIndex - lindex
    {
      var rindex := Min(lindex + step, endIndex);
      assert Pieces(lindex, endIndex, step) == [Piece(lindex, rindex)] + Pieces(lindex + step, endIndex, step);
      if rindex > lindex {
        segments := segments + [Piece(lindex, rindex)];
      }
      lindex := lindex + step;
    }
  }

  /** The pieces of a non-empty range start at `lo`, follow each other
      without gap or overlap and end at `hi`; each is non-empty, all but the
      last hold exactly `step` samples and the last at most `step`. */
  lemma {:induction false} PiecesTile(lo: int, hi: int, step: nat)
    requires step > 0 && lo < hi
    ensures var p := Pieces(lo, hi, step);
      && p != [] && p[0].lo == lo && p[|p| - 1].hi == hi
      && (forall k :: 0 <= k < |p| ==> p[k].lo < p[k].hi <= p[k].lo + step)
      && (forall k :: 0 <= k < |p| - 1 ==> p[k].hi == p[k + 1].lo && p[k].hi - p[k].lo == step)
    decreases hi - lo
  {
    var p := Pieces(lo, hi, step);
    if lo + step < hi {
      PiecesTile(lo + step, hi, step);
      var rest := Pieces(lo + step, hi, step);
      assert p == [Piece(lo, lo + step)] + rest;
      assert forall k :: 1 <= k < |p| ==> p[k] == rest[k - 1];
    } else {
      assert Pieces(lo + step, hi, step) == [];
    }
  }

  /** A non-empty range is cut into `ceil(span / step)` pieces. */
  lemma {:induction false} PiecesCount(lo: int, hi: int, step: nat)
    requires step > 0 && lo < hi
    ensures |Pieces(lo, hi, step)| == CeilDiv(hi - lo, step)
    decreases hi - lo
  {
    if lo + step < hi {
      PiecesCount(lo + step, hi, step);
      CeilDivStep(hi - lo - step, step);
    } else {
      assert Pieces(lo + step, hi, step) == [];
      CeilDivOne(hi - lo, step);
    }
  }

  lemma CeilDivStep(a: nat, b: nat)
    requires b > 0
    ensures CeilDiv(a + b, b) == CeilDiv(a, b) + 1
  {
    var x := a + b - 1;
    var q, r := x / b, x % b;
    assert x == q * b + r;
    assert x + b == (q + 1) * b + r;
    DivUnique(x + b, b, q + 1, r);
  }

  lemma CeilDivOne(a: nat, b: nat)
    requires 0 < a <= b
    ensures CeilDiv(a, b) == 1
  {
    assert b <= a + b - 1 < 2 * b;
  }

  lemma CeilDivBounds(a: nat, b: nat)
    requires b > 0
    ensures a <= CeilDiv(a, b) * b <= a + b - 1
  {
    var c := CeilDiv(a, b);
    assert a + b - 1 == c * b + (a + b - 1) % b;
  }

  /** `ceil(a / b) <= n` whenever `n` pieces of `b` cover `a`. */
  lemma CeilDivAtMost(a: nat, b: nat, n: nat)
    requires b > 0 && a <= b * n
    ensures CeilDiv(a, b) <= n
  {
    var c := CeilDiv(a, b);
    CeilDivBounds(a, b);
    assert (n + 1) * b == b * n + b;
    LessFromProduct(c, n + 1, b);
  }

  /** Rounding to the nearest count keeps `span` within half a maximum of
      `n * maxSize`: `2 * span <= (2n + 1) * maxSize`. */
  lemma RoundBound(span: nat, maxSize: nat)
    requires 0 < maxSize < span
    ensures 2 * span <= (2 * PieceCount(span, maxSize) + 1) * maxSize
  {
    var n := PieceCount(span, maxSize);
    var q, r := span / maxSize, span % maxSize;
    assert span == q * maxSize + r;
    if n == q {
      assert 2 * r <= maxSize;
      assert (2 * n + 1) * maxSize == 2 * (q * maxSize) + maxSize;
    } else {
      assert n == q + 1;
      assert (2 * n + 1) * maxSize == 2 * (q * maxSize) + 3 * maxSize;
    }
  }

  /** Each piece of a long range is at most `step` samples, and `step` is at
      most one and a half times `maxSize`: a piece can be longer than
      `maxSize`, but never by more than half of it. */
  lemma StepBound(span: nat, maxSize: nat)
    requires 0 < maxSize < span
    ensures var n := PieceCount(span, maxSize);
      span <= Step(span, maxSize) * n && 2 * Step(span, maxSize) <= 3 * maxSize
  {
    var n := PieceCount(span, maxSize);
    var step := Step(span, maxSize);
    CeilDivBounds(span, n);
    RoundBound(span, maxSize);
    StepArith(span, maxSize, n, step);
  }

  /** The arithmetic behind `StepBound`: from `step * n < span + n` and
      `2 * span <= (2n + 1) * m`, `2 * step <= 3m`. Otherwise
      `(3m + 1) * n <= 2 * step * n <= (2n + 1) * m + 2n - 2`, that is
      `(m - 1) * (n - 1) < 0`, which positive `m` and `n` rule out. */
  lemma StepArith(span: nat, m: nat, n: nat, step: nat)
    requires m > 0 && n >= 1
    requires step * n <= span + n - 1
    requires 2 * span <= (2 * n + 1) * m
    ensures 2 * step <= 3 * m
  {
    var sn, mn := step * n, m * n;
    assert (2 * n + 1) * m == 2 * mn + m;
    ProductAtLeastSum(m, n);
    assert 2 * sn < 3 * mn + n;
    assert (2 * step) * n == 2 * sn;
    assert (3 * m + 1) * n == 3 * mn + n;
    LessFromProduct(2 * step, 3 * m + 1, n);
  }

  /** For positive `m` and `n`, `m + n - 1 <= m * n`, since
      `m * n - m - n + 1 == (m - 1) * (n - 1)`. */
  lemma ProductAtLeastSum(m: nat, n: nat)
    requires m >= 1 && n >= 1
    ensures m + n - 1 <= m * n
  {
    var a, b := m - 1, n - 1;
    MulLeft(b, a);
    assert m * n == a * b + a + b + 1;
  }

  /** `n` pieces of `step` samples that cover the range leave at most `n`
      pieces. */
  lemma PiecesAtMost(lo: int, hi: int, step: nat, n: nat)
    requires step > 0 && lo < hi && hi - lo <= step * n
    ensures |Pieces(lo, hi, step)| <= n
  {
    PiecesCount(lo, hi, step);
    CeilDivAtMost(hi - lo, step, n);
  }

  /** Pieces of at most `step` samples, with `2 * step <= 3m`, are at
      most one and a half times `m`. */
  lemma PiecesShort(lo: int, hi: int, step: nat, m: nat)
    requires step > 0 && lo < hi && 2 * step <= 3 * m
    ensures var p := Pieces(lo, hi, step);
      forall k :: 0 <= k < |p| ==> 2 * (p[k].hi - p[k].lo) <= 3 * m
  {
    PiecesTile(lo, hi, step);
  }

  /** What the splitter guarantees. It fails only on a maximum of 0 samples
      and a non-empty range. Without a maximum, or for a range no longer
      than it, the range stays one piece. Otherwise the range is cut into at
      least one and at most `n = round(span / maxSize)` non-empty pieces that
      tile it in order, all but the last of `step` samples and the last of
      at most `step`, none longer than one and a half times `maxSize`. */
  lemma SplitTiles(startIndex: int, endIndex: int, maxSize: Option<nat>)
    ensures var r := Split(startIndex, endIndex, maxSize);
      && (r.Failure? <==> maxSize == Some(0) && endIndex > startIndex)
      && (r.Success? && (maxSize.None? || endIndex - startIndex <= maxSize.value) ==>
            r.value == [Piece(startIndex, endIndex)])
      && (r.Success? && maxSize.Some? && endIndex - startIndex > maxSize.value ==>
            var p, m := r.value, maxSize.value;
            var step := Step(endIndex - startIndex, m);
            && 1 <= |p| <= PieceCount(endIndex - startIndex, m)
            && p[0].lo == startIndex && p[|p| - 1].hi == endIndex
            && (forall k :: 0 <= k < |p| ==> p[k].lo < p[k].hi <= p[k].lo + step)
            && (forall k :: 0 <= k < |p| - 1 ==> p[k].hi == p[k + 1].lo && p[k].hi - p[k].lo == step)
            && (forall k :: 0 <= k < |p| ==> 2 * (p[k].hi - p[k].lo) <= 3 * m))
  {
    if maxSize.Some? && endIndex - startIndex > maxSize.value > 0 {
      var m := maxSize.value;
      assert Split(startIndex, endIndex, maxSize) == Success(Pieces(startIndex, endIndex, Step(endIndex - startIndex, m)));
      LongSplit(startIndex, endIndex, m);
    }
  }

  /** The pieces of a range longer than a positive maximum `m`. */
  lemma LongSplit(lo: int, hi: int, m: nat)
    requires 0 < m < hi - lo
    ensures var step := Step(hi - lo, m);
      var p := Pieces(lo, hi, step);
      && 1 <= |p| <= PieceCount(hi - lo, m)
      && p[0].lo == lo && p[|p| - 1].hi == hi
      && (forall k :: 0 <= k < |p| ==> p[k].lo < p[k].hi <= p[k].lo + step)
      && (forall k :: 0 <= k < |p| - 1 ==> p[k].hi == p[k + 1].lo && p[k].hi - p[k].lo == step)
      && (forall k :: 0 <= k < |p| ==> 2 * (p[k].hi - p[k].lo) <= 3 * m)
  {
    var step := Step(hi - lo, m);
    PiecesTile(lo, hi, step);
    StepBound(hi - lo, m);
    PiecesAtMost(lo, hi, step, PieceCount(hi - lo, m));
    PiecesShort(lo, hi, step, m);
  }

  /** 65 s at 16 kHz with a 30 s maximum: `round(65 / 30) == 2`, so the range
      becomes two pieces of 32.5 s, each longer than the maximum. */
  lemma SplitExample()
    ensures MaxSize(30000, 16000) == 480000
    ensures MsToIndex(65000, 16000) == 1040000
    ensures Split(0, 1040000, Some(480000)) == Success([Piece(0, 520000), Piece(520000, 1040000)])
  {
    assert RoundHalfEven(1040000, 480000) == 2;
    assert PieceCount(1040000, 480000) == 2;
    assert CeilDiv(1040000, 2) == 520000;
    assert Step(1040000, 480000) == 520000;
    assert Pieces(1040000, 1040000, 520000) == [];
    assert Pieces(520000, 1040000, 520000) == [Piece(520000, 1040000)];
    assert Pieces(0, 1040000, 520000) == [Piece(0, 520000), Piece(520000, 1040000)];
  }
}
