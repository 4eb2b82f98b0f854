/** What a bit-block transfer means, one pixel at a time. */
module Raster {
  import opened Words

  /** Pixel (x, y) of a bitmap whose rows are `raster` words long. */
  predicate Pixel(bits: seq<Word>, raster: int, x: int, y: int)
    requires 0 <= x < 16 * raster && 0 <= y && (y + 1) * raster <= |bits|
  {
    bits[y * raster + x / 16][x % 16]
  }

  datatype Source = NoSource | Source(bits: seq<Word>, raster: int, width: int, height: int)

  /** A missing source form counts as black everywhere. */
  predicate SourcePixel(source: Source, x: int, y: int) {
    source.Source? ==>
      0 <= x < 16 * source.raster && 0 <= y && (y + 1) * source.raster <= |source.bits| &&
      Pixel(source.bits, source.raster, x, y)
  }

  datatype Halftone = NoHalftone | Halftone(bits: seq<Word>)

  /** A halftone is a 16 by 16 pattern repeated over the destination. */
  function HalftoneRow(halftone: Halftone, y: int): Word
    requires halftone.Halftone? ==> 16 <= |halftone.bits|
  {
    if halftone.Halftone? then halftone.bits[y % 16] else ALL_ONES
  }

  /** The arguments of a transfer, as the caller gives them. */
  datatype Job = Job(rule: nat,
                     destX: int, destY: int, width: int, height: int,
                     sourceX: int, sourceY: int,
                     clipX: int, clipY: int, clipWidth: int, clipHeight: int,
                     destWidth: int, destHeight: int)

  /** Columns of the destination rectangle, the clipping rectangle, the
      destination form and the translated source form, all at once. */
  predicate InColumns(job: Job, source: Source, x: int) {
    && job.destX <= x < job.destX + job.width
    && job.clipX <= x < job.clipX + job.clipWidth
    && 0 <= x < job.destWidth
    && (source.Source? ==> 0 <= x - job.destX + job.sourceX < source.width)
  }

  predicate InRows(job: Job, source: Source, y: int) {
    && job.destY <= y < job.destY + job.height
    && job.clipY <= y < job.clipY + job.clipHeight
    && 0 <= y < job.destHeight
    && (source.Source? ==> 0 <= y - job.destY + job.sourceY < source.height)
  }

  function Max(a: int, b: int): int { if a < b then b else a }
  function Min(a: int, b: int): int { if a < b then a else b }

  function FirstX(job: Job, source: Source): int {
    var first := Max(job.destX, Max(job.clipX, 0));
    if source.Source? then Max(first, job.destX - job.sourceX) else first
  }

  function LimitX(job: Job, source: Source): int {
    var limit := Min(job.destX + job.width, Min(job.clipX + job.clipWidth, job.destWidth));
    if source.Source? then Min(limit, job.destX - job.sourceX + source.width) else limit
  }

  function FirstY(job: Job, source: Source): int {
    var first := Max(job.destY, Max(job.clipY, 0));
    if source.Source? then Max(first, job.destY - job.sourceY) else first
  }

  function LimitY(job: Job, source: Source): int {
    var limit := Min(job.destY + job.height, Min(job.clipY + job.clipHeight, job.destHeight));
    if source.Source? then Min(limit, job.destY - job.sourceY + source.height) else limit
  }

  lemma ClippedColumns(job: Job, source: Source, x: int)
    ensures InColumns(job, source, x) <==> FirstX(job, source) <= x < LimitX(job, source)
  {
  }

  lemma ClippedRows(job: Job, source: Source, y: int)
    ensures InRows(job, source, y) <==> FirstY(job, source) <= y < LimitY(job, source)
  {
  }

  function Raster(width: int): int { (width + 15) / 16 }

  predicate FitsDest(job: Job, bits: seq<Word>) {
    0 <= job.destWidth && 0 <= job.destHeight && |bits| == Raster(job.destWidth) * job.destHeight
  }

  /** The specification of one pixel: inside the clipped rectangle, the rule
      applied to (source AND halftone) and the old pixel; outside, the old pixel. */
  ghost predicate PixelRendered(job: Job, source: Source, halftone: Halftone, x: int, y: int, before: bool, after: bool)
    requires halftone.Halftone? ==> 16 <= |halftone.bits|
  {
    after ==
    if InColumns(job, source, x) && InRows(job, source, y)
    then RuleBit(job.rule,
                 SourcePixel(source, x - job.destX + job.sourceX, y - job.destY + job.sourceY)
                 && HalftoneRow(halftone, y)[x % 16],
                 before)
    else before
  }

  /** Every pixel of the destination bitmap, padding bits included, is as specified. */
  ghost predicate Rendered(job: Job, source: Source, halftone: Halftone, before: seq<Word>, after: seq<Word>)
    requires FitsDest(job, before)
    requires halftone.Halftone? ==> 16 <= |halftone.bits|
  {
    var raster := Raster(job.destWidth);
    && |after| == |before|
    && forall x, y | 0 <= x < 16 * raster && 0 <= y < job.destHeight ::
         && (y + 1) * raster <= |before|
         && PixelRendered(job, source, halftone, x, y, Pixel(before, raster, x, y), Pixel(after, raster, x, y))
  }

  /** A clipped transfer: `w` by `h` pixels from (sx, sy) to (dx, dy). */
  datatype Area = Area(sx: int, sy: int, dx: int, dy: int, w: int, h: int) {
    function FirstColumn(): int { dx / 16 }
    function LastColumn(): int { (dx + w - 1) / 16 }
    function Columns(): int { LastColumn() - FirstColumn() + 1 }

    /** Columns of source words that hold a pixel to be copied. */
    predicate Needed(column: int) { sx / 16 <= column <= (sx + w - 1) / 16 }
  }

  /** The bits the edge masks let through.  They are the columns of the area,
      except when a row is one word wide and is copied from right to left:
      merged masks then end up all zero, and unmerged ones all one. */
  predicate Written(a: Area, leftward: bool, x: int) {
    if leftward && a.Columns() == 1
    then a.dx % 16 + a.w == 16 && x / 16 == a.dx / 16
    else a.dx <= x < a.dx + a.w
  }

  /** What happens to one bit of a destination row `x` to the right, when its
      source row is `ys` and `half` is its halftone bit. */
  predicate BitCopied(a: Area, leftward: bool, rule: nat, source: Source, half: bool, x: int, ys: int,
                      before: bool, after: bool)
  {
    if !Written(a, leftward, x) then after == before
    else if a.dx <= x < a.dx + a.w
    then after == RuleBit(rule, SourcePixel(source, x - a.dx + a.sx, ys) && half, before)
    else after == RuleBit(rule, true, before) || after == RuleBit(rule, false, before)
  }

  ghost predicate WordCopied(a: Area, leftward: bool, rule: nat, source: Source, half: Word, column: int, ys: int,
                             before: Word, after: Word)
  {
    forall k | 0 <= k < 16 ::
      BitCopied(a, leftward, rule, source, half[k], 16 * column + k, ys, before[k], after[k])
  }

  // ---------- address arithmetic ----------

  /** `n` steps in a direction that is 1 or -1. */
  function Along(direction: int, n: int): int { if direction == 1 then n else -n }

  /** The index of the first word of row y. */
  function RowIndex(y: int, raster: int): int { y * raster }

  lemma RowOrder(raster: int, y1: int, y2: int)
    requires 0 <= raster && y1 < y2
    ensures y1 * raster + raster <= y2 * raster
  {
    var gap := y2 - y1 - 1;
    assert 0 <= gap * raster;
    assert y2 * raster == (y1 + 1 + gap) * raster == y1 * raster + raster + gap * raster;
  }

  lemma RowsApart(raster: int, y1: int, c1: int, y2: int, c2: int)
    requires 0 <= c1 < raster && 0 <= c2 < raster && y1 != y2
    ensures y1 * raster + c1 != y2 * raster + c2
  {
    if y1 < y2 {
      RowOrder(raster, y1, y2);
    } else {
      RowOrder(raster, y2, y1);
    }
  }

  lemma RowFits(raster: int, y: int, height: int)
    requires 0 <= raster && 0 <= y < height
    ensures 0 <= y * raster && (y + 1) * raster == y * raster + raster <= raster * height
  {
    RowOrder(raster, y, height);
    if 0 < y {
      RowOrder(raster, 0, y);
    }
  }

  // ---------- one word of the inner loop ----------

  /** The skew, its mask and the column offset `t` fit together: bit k of a
      destination word comes from `prev`, one step behind column + t, exactly
      where the (rotated) mask says so. */
  ghost predicate Aligned(a: Area, skew: int, skewMask: Word, hDir: int, t: int) {
    && 0 <= skew < 16
    && (a.sx - a.dx) % 16 == skew
    && forall k | 0 <= k < 16 :: BitAligned(a, skew, skewMask, hDir, t, k)
  }

  predicate BitAligned(a: Area, skew: int, skewMask: Word, hDir: int, t: int, k: int) {
    (a.sx - a.dx) / 16 + (k + skew) / 16 == if skewMask[(k + skew) % 16] then t - hDir else t
  }

  /** The word column and the bit that hold the source of bit k of `column`. */
  lemma SourceColumn(a: Area, skew: int, skewMask: Word, hDir: int, t: int, column: int, k: int)
    requires Aligned(a, skew, skewMask, hDir, t) && 0 <= k < 16
    requires a.dx <= 16 * column + k < a.dx + a.w
    ensures var x := 16 * column + k - a.dx + a.sx;
            var from := column + if skewMask[(k + skew) % 16] then t - hDir else t;
            x / 16 == from && x % 16 == (k + skew) % 16 && a.Needed(from)
  {
    assert BitAligned(a, skew, skewMask, hDir, t, k);
    var x := 16 * column + k - a.dx + a.sx;
    assert x == 16 * (column + (a.sx - a.dx) / 16 + (k + skew) / 16) + (k + skew) % 16;
  }

  /** `word` is the source word of that column of the row at index `start`, if
      any pixel of it is needed. */
  ghost predicate Fetched(a: Area, source: Source, start: int, column: int, word: Word)
    requires source.Source? && 0 <= start && start + source.raster <= |source.bits|
  {
    a.Needed(column) && 0 <= column < source.raster ==> word == source.bits[start + column]
  }

  lemma SkewedBitCopied(a: Area, skew: int, skewMask: Word, hDir: int, t: int, source: Source,
                        column: int, ys: int, start: int, prev: Word, next: Word, k: int)
    requires source.Source? && Aligned(a, skew, skewMask, hDir, t)
    requires 0 <= a.sx && a.sx + a.w <= 16 * source.raster
    requires 0 <= ys && 0 <= start == ys * source.raster && start + source.raster <= |source.bits|
    requires Fetched(a, source, start, column + t - hDir, prev)
    requires Fetched(a, source, start, column + t, next)
    requires 0 <= k < 16 && a.dx <= 16 * column + k < a.dx + a.w
    ensures Skewed(prev, next, skewMask, skew)[k] == SourcePixel(source, 16 * column + k - a.dx + a.sx, ys)
  {
    hide Skewed;
    assert (ys + 1) * source.raster == start + source.raster;
    SourceColumn(a, skew, skewMask, hDir, t, column, k);
    SkewedBit(prev, next, skewMask, skew, k);
  }

  lemma SkewedColumn(a: Area, skew: int, skewMask: Word, hDir: int, t: int, source: Source,
                     column: int, ys: int, start: int, prev: Word, next: Word)
    requires source.Source? && Aligned(a, skew, skewMask, hDir, t)
    requires 0 <= a.sx && a.sx + a.w <= 16 * source.raster
    requires 0 <= ys && 0 <= start == ys * source.raster && start + source.raster <= |source.bits|
    requires Fetched(a, source, start, column + t - hDir, prev)
    requires Fetched(a, source, start, column + t, next)
    ensures SkewedFits(a, source, column, ys, Skewed(prev, next, skewMask, skew))
  {
    forall k | 0 <= k < 16 && a.dx <= 16 * column + k < a.dx + a.w
      ensures Skewed(prev, next, skewMask, skew)[k] == SourcePixel(source, 16 * column + k - a.dx + a.sx, ys)
    {
      SkewedBitCopied(a, skew, skewMask, hDir, t, source, column, ys, start, prev, next, k);
    }
  }

  /** The masks for the first and the last word of a row copied from left to right. */
  ghost predicate EdgeMasks(a: Area, mask1: Word, mask2: Word) {
    if a.w < 16 - a.dx % 16
    then mask2 == ZERO && forall k | 0 <= k < 16 :: mask1[k] == (a.dx % 16 <= k < a.dx % 16 + a.w)
    else forall k | 0 <= k < 16 :: mask1[k] == (a.dx % 16 <= k) && mask2[k] == (k <= (a.dx + a.w - 1) % 16)
  }

  lemma WordsPerRow(a: Area)
    requires 0 <= a.dx && 0 < a.w
    ensures var startBits := 16 - a.dx % 16;
            && (a.Columns() == if a.w < startBits then 1 else (a.w - startBits + 15) / 16 + 1)
            && (a.w < startBits ==> (a.dx + a.w - 1) % 16 == a.dx % 16 + a.w - 1)
  {
  }

  /** The first source word fetched in the loop is `t` columns ahead, and a row
      that does not preload needs no bit of the word before it. */
  predicate StartsAligned(a: Area, hDir: int, preload: bool, t: int) {
    var start := if hDir == 1 then a.sx / 16 else (a.sx + a.w - 1) / 16;
    var first := if hDir == 1 then a.FirstColumn() else a.LastColumn();
    && start + (if preload then hDir else 0) == first + t
    && (!preload ==> !a.Needed(first + t - hDir))
  }

  /** The bits of `skewed` inside the area are the source pixels to be copied there. */
  ghost predicate SkewedFits(a: Area, source: Source, column: int, ys: int, skewed: Word) {
    forall k | 0 <= k < 16 && a.dx <= 16 * column + k < a.dx + a.w ::
      skewed[k] == SourcePixel(source, 16 * column + k - a.dx + a.sx, ys)
  }

  lemma MergedWord(a: Area, leftward: bool, rule: nat, source: Source, half: Word, column: int, ys: int,
                   mask: Word, skewed: Word, before: Word)
    requires rule < 16
    requires forall k | 0 <= k < 16 :: mask[k] == Written(a, leftward, 16 * column + k)
    requires SkewedFits(a, source, column, ys, skewed) || (source.NoSource? && skewed == half)
    ensures WordCopied(a, leftward, rule, source, half, column, ys, before,
                       Or(And(mask, Merge(rule, And(skewed, half), before)), And(Not(mask), before)))
  {
    var merged := Merge(rule, And(skewed, half), before);
    var after := Or(And(mask, merged), And(Not(mask), before));
    forall k | 0 <= k < 16
      ensures BitCopied(a, leftward, rule, source, half[k], 16 * column + k, ys, before[k], after[k])
    {
      MergeIsTruthTable(rule, And(skewed, half), before, k);
      assert after[k] == if mask[k] then merged[k] else before[k];
    }
  }

  /** Columns lo to hi of a row are copied, and nothing else is changed; `first`
      is the index of the row's first destination word. */
  ghost predicate RowPart(a: Area, leftward: bool, rule: nat, source: Source, half: Word, ys: int,
                          first: int, lo: int, hi: int, before: seq<Word>, after: seq<Word>)
  {
    && |after| == |before|
    && forall i | 0 <= i < |before| ::
         if first + lo <= i < first + hi
         then WordCopied(a, leftward, rule, source, half, a.FirstColumn() + (i - first), ys, before[i], after[i])
         else after[i] == before[i]
  }

  lemma RowPartGrows(a: Area, leftward: bool, rule: nat, source: Source, half: Word, ys: int,
                     first: int, lo: int, hi: int, before: seq<Word>, after: seq<Word>, i: int, w: Word)
    requires RowPart(a, leftward, rule, source, half, ys, first, lo, hi, before, after)
    requires 0 <= i < |before| && lo <= hi && (i == first + lo - 1 || i == first + hi)
    requires WordCopied(a, leftward, rule, source, half, a.FirstColumn() + (i - first), ys, after[i], w)
    ensures i == first + lo - 1 ==>
              RowPart(a, leftward, rule, source, half, ys, first, lo - 1, hi, before, Put(after, i, w))
    ensures i == first + hi ==>
              RowPart(a, leftward, rule, source, half, ys, first, lo, hi + 1, before, Put(after, i, w))
  {
  }

  /** `bits` has, from index `start` on, the row that the source had there. */
  ghost predicate RowIntact(source: Source, start: int, bits: seq<Word>)
    requires source.Source?
  {
    && |bits| == |source.bits| && 0 <= start && start + source.raster <= |bits|
    && forall i | start <= i < start + source.raster :: bits[i] == source.bits[i]
  }

  /** The row read at `start` is apart from the row written at `base`, or it is
      that row and every word is read before the loop reaches it. */
  predicate ReadFirst(hDir: int, t: int, raster: int, base: int, start: int) {
    || base + raster <= start
    || start + raster <= base
    || (base == start && if hDir == 1 then 0 <= t else t <= 0)
  }

  lemma SourceUnchanged(a: Area, leftward: bool, rule: nat, source: Source, half: Word, ys: int,
                        t: int, base: int, start: int, column: int, lo: int, hi: int,
                        before: seq<Word>, now: seq<Word>)
    requires source.Source? && RowIntact(source, start, before)
    requires RowPart(a, leftward, rule, source, half, ys, base + a.FirstColumn(), lo, hi, before, now)
    requires ReadFirst(if leftward then -1 else 1, t, source.raster, base, start)
    requires 0 <= a.FirstColumn() && a.LastColumn() < source.raster && 0 <= lo && hi <= a.Columns()
    requires if leftward then column < a.FirstColumn() + lo else a.FirstColumn() + hi <= column
    requires 0 <= column + t < source.raster
    ensures now[start + column + t] == source.bits[start + column + t]
  {
  }

  /** In step `word` of a row, a needed source column lies inside the row and
      `word` does not exceed the source raster. */
  lemma FetchInRow(a: Area, hDir: int, preload: bool, t: int, raster: int, word: int, column: int)
    requires hDir == 1 || hDir == -1
    requires StartsAligned(a, hDir, preload, t) && 1 <= word
    requires column == if hDir == 1 then a.FirstColumn() + word - 1 else a.LastColumn() - word + 1
    requires 0 <= a.sx && 0 < a.w && a.sx + a.w <= 16 * raster
    requires a.Needed(column + t)
    ensures 0 <= column + t < raster && word <= raster
  {
  }

  // ---------- all rows ----------

  /** The word at row y, column c: copied if the row is among those from `top` up
      to `bottom` and the column is one of the area, otherwise as before. */
  ghost predicate CellCopied(a: Area, leftward: bool, rule: nat, source: Source, halftone: Halftone, raster: int,
                             top: int, bottom: int, y: int, c: int, before: seq<Word>, after: seq<Word>)
    requires halftone.Halftone? ==> 16 <= |halftone.bits|
  {
    var i := y * raster + c;
    0 <= i < |before| == |after| &&
    if top <= y < bottom && a.FirstColumn() <= c <= a.LastColumn()
    then WordCopied(a, leftward, rule, source, HalftoneRow(halftone, y), c, y - a.dy + a.sy, before[i], after[i])
    else after[i] == before[i]
  }

  /** Destination rows from `top` up to `bottom` are copied, and nothing else is changed. */
  ghost predicate RowsCopied(a: Area, leftward: bool, rule: nat, source: Source, halftone: Halftone, raster: int,
                             height: int, top: int, bottom: int, before: seq<Word>, after: seq<Word>)
    requires halftone.Halftone? ==> 16 <= |halftone.bits|
  {
    && |after| == |before|
    && forall y, c | 0 <= y < height && 0 <= c < raster ::
         CellCopied(a, leftward, rule, source, halftone, raster, top, bottom, y, c, before, after)
  }

  lemma NoRowsCopied(a: Area, leftward: bool, rule: nat, source: Source, halftone: Halftone, raster: int,
                     height: int, top: int, before: seq<Word>)
    requires halftone.Halftone? ==> 16 <= |halftone.bits|
    requires 0 <= raster && |before| == raster * height
    ensures RowsCopied(a, leftward, rule, source, halftone, raster, height, top, top, before, before)
  {
    forall y, c | 0 <= y < height && 0 <= c < raster
      ensures CellCopied(a, leftward, rule, source, halftone, raster, top, top, y, c, before, before)
    {
      RowFits(raster, y, height);
    }
  }

  lemma RowCopiedCell(a: Area, leftward: bool, rule: nat, source: Source, halftone: Halftone, raster: int,
                      top: int, bottom: int, top': int, bottom': int, row: int, y: int, c: int,
                      before: seq<Word>, mid: seq<Word>, after: seq<Word>)
    requires halftone.Halftone? ==> 16 <= |halftone.bits|
    requires CellCopied(a, leftward, rule, source, halftone, raster, top, bottom, y, c, before, mid)
    requires 0 <= c < raster && 0 <= a.FirstColumn() <= a.LastColumn() < raster
    requires top <= bottom
    requires (top' == top - 1 == row && bottom' == bottom) || (top' == top && bottom == row == bottom' - 1)
    requires RowPart(a, leftward, rule, source, HalftoneRow(halftone, row), row - a.dy + a.sy,
                     row * raster + a.FirstColumn(), 0, a.Columns(), mid, after)
    ensures CellCopied(a, leftward, rule, source, halftone, raster, top', bottom', y, c, before, after)
  {
    hide WordCopied, HalftoneRow;
    var first := row * raster + a.FirstColumn();
    var i := y * raster + c;
    if y != row && first <= i < first + a.Columns() {
      RowsApart(raster, y, c, row, i - row * raster);
    }
  }

  lemma RowsGrow(a: Area, leftward: bool, rule: nat, source: Source, halftone: Halftone, raster: int,
                 height: int, top: int, bottom: int, top': int, bottom': int, row: int,
                 before: seq<Word>, mid: seq<Word>, after: seq<Word>)
    requires halftone.Halftone? ==> 16 <= |halftone.bits|
    requires RowsCopied(a, leftward, rule, source, halftone, raster, height, top, bottom, before, mid)
    requires 0 <= a.FirstColumn() <= a.LastColumn() < raster
    requires top <= bottom
    requires (top' == top - 1 == row && bottom' == bottom) || (top' == top && bottom == row == bottom' - 1)
    requires RowPart(a, leftward, rule, source, HalftoneRow(halftone, row), row - a.dy + a.sy,
                     row * raster + a.FirstColumn(), 0, a.Columns(), mid, after)
    ensures RowsCopied(a, leftward, rule, source, halftone, raster, height, top', bottom', before, after)
  {
    forall y, c | 0 <= y < height && 0 <= c < raster
      ensures CellCopied(a, leftward, rule, source, halftone, raster, top', bottom', y, c, before, after)
    {
      RowCopiedCell(a, leftward, rule, source, halftone, raster, top, bottom, top', bottom', row, y, c, before, mid,
                    after);
    }
  }

  /** A source row in the destination bitmap that is not among the rows done is intact. */
  lemma RowKept(a: Area, leftward: bool, rule: nat, source: Source, halftone: Halftone,
                height: int, top: int, bottom: int, ys: int, after: seq<Word>)
    requires halftone.Halftone? ==> 16 <= |halftone.bits|
    requires source.Source? && 0 <= source.raster
    requires RowsCopied(a, leftward, rule, source, halftone, source.raster, height, top, bottom, source.bits, after)
    requires 0 <= ys < height && |source.bits| == source.raster * height && !(top <= ys < bottom)
    ensures RowIntact(source, ys * source.raster, after)
  {
    RowFits(source.raster, ys, height);
    var start := ys * source.raster;
    forall i | start <= i < start + source.raster
      ensures after[i] == source.bits[i]
    {
      assert CellCopied(a, leftward, rule, source, halftone, source.raster, top, bottom, ys, i - start, source.bits,
                        after);
    }
  }

  /** Rows that differ do not meet; the same row is safe if the loop reads ahead. */
  lemma ReadFirstRow(hDir: int, t: int, raster: int, y: int, ys: int)
    requires 0 <= raster
    requires y == ys ==> if hDir == 1 then 0 <= t else t <= 0
    ensures ReadFirst(hDir, t, raster, y * raster, ys * raster)
  {
    if y < ys {
      RowOrder(raster, y, ys);
    } else if ys < y {
      RowOrder(raster, ys, y);
    }
  }

  // ---------- setting up the loops ----------

  /** How many columns ahead of the destination word the source word fetched in
      the same step is. */
  function Lead(a: Area, hDir: int): int {
    var columns := (a.sx - a.dx) / 16;
    if (a.sx - a.dx) % 16 == 0 then (if hDir == 1 then columns else columns - 1)
    else if hDir == 1 then columns + 1 else columns
  }

  lemma SkewFits(a: Area, hDir: int, skewMask: Word)
    requires hDir == 1 || hDir == -1
    requires var skew := (a.sx - a.dx) % 16;
             var mask := if skew == 0 then ZERO else RightMask(16 - skew);
             skewMask == if hDir == 1 then mask else Not(mask)
    ensures Aligned(a, (a.sx - a.dx) % 16, skewMask, hDir, Lead(a, hDir))
  {
    var skew := (a.sx - a.dx) % 16;
    forall k | 0 <= k < 16
      ensures BitAligned(a, skew, skewMask, hDir, Lead(a, hDir), k)
    {
      assert skewMask[(k + skew) % 16] == if hDir == 1 then skew != 0 && k + skew < 16 else skew == 0 || 16 <= k + skew;
    }
  }

  /** The preload test asks whether the shift carries into the next word. */
  lemma PreloadFits(a: Area, hDir: int, preload: bool)
    requires hDir == 1 || hDir == -1
    requires var start := if hDir == 1 then a.sx else a.sx + a.w - 1;
             var skew := (a.sx - a.dx) % 16;
             preload == ((skew != 0 && skew <= start % 16) != (hDir < 0))
    ensures StartsAligned(a, hDir, preload, Lead(a, hDir))
  {
    var start := if hDir == 1 then a.sx else a.sx + a.w - 1;
    var dest := if hDir == 1 then a.dx else a.dx + a.w - 1;
    var skew, q := (a.sx - a.dx) % 16, (a.sx - a.dx) / 16;
    assert start == 16 * (q + dest / 16) + (skew + dest % 16);
    if skew + dest % 16 < 16 {
      assert start / 16 == q + dest / 16 && start % 16 == skew + dest % 16;
    } else {
      assert start / 16 == q + dest / 16 + 1 && start % 16 == skew + dest % 16 - 16;
    }
  }

  lemma ColumnBits(a: Area, column: int, k: int)
    requires 0 <= a.dx && 0 < a.w && a.FirstColumn() <= column <= a.LastColumn() && 0 <= k < 16
    ensures (16 * column + k) / 16 == column
    ensures a.dx <= 16 * column + k <==> column > a.FirstColumn() || a.dx % 16 <= k
    ensures 16 * column + k < a.dx + a.w <==> column < a.LastColumn() || k <= (a.dx + a.w - 1) % 16
  {
  }

  lemma MasksFit(a: Area, leftward: bool, mask1: Word, mask2: Word, n: int)
    requires 0 <= a.dx && 0 < a.w && EdgeMasks(a, mask1, mask2) && 1 <= n <= a.Columns()
    ensures var first, last := if leftward then mask2 else mask1, if leftward then mask1 else mask2;
            var mask := if n == 1 then first else if n == a.Columns() then last else ALL_ONES;
            var column := if leftward then a.LastColumn() - n + 1 else a.FirstColumn() + n - 1;
            forall k | 0 <= k < 16 :: mask[k] == Written(a, leftward, 16 * column + k)
  {
    WordsPerRow(a);
    var first, last := if leftward then mask2 else mask1, if leftward then mask1 else mask2;
    var mask := if n == 1 then first else if n == a.Columns() then last else ALL_ONES;
    var column := if leftward then a.LastColumn() - n + 1 else a.FirstColumn() + n - 1;
    forall k | 0 <= k < 16
      ensures mask[k] == Written(a, leftward, 16 * column + k)
    {
      ColumnBits(a, column, k);
    }
  }

  // ---------- the whole transfer ----------

  /** The fate of pixel (x, y) of the destination bitmap. */
  ghost predicate PixelCopied(a: Area, leftward: bool, rule: nat, source: Source, halftone: Halftone, raster: int,
                              x: int, y: int, before: seq<Word>, after: seq<Word>)
    requires halftone.Halftone? ==> 16 <= |halftone.bits|
    requires 0 <= x < 16 * raster && 0 <= y && (y + 1) * raster <= |before| == |after|
  {
    if a.dy <= y < a.dy + a.h
    then BitCopied(a, leftward, rule, source, HalftoneRow(halftone, y)[x % 16], x, y - a.dy + a.sy,
                   Pixel(before, raster, x, y), Pixel(after, raster, x, y))
    else Pixel(after, raster, x, y) == Pixel(before, raster, x, y)
  }

  /** Everything the engine does to the destination bitmap, in pixels, with the
      defect of one-word rows copied from right to left made explicit. */
  ghost predicate Outcome(a: Area, leftward: bool, rule: nat, source: Source, halftone: Halftone, raster: int,
                          height: int, before: seq<Word>, after: seq<Word>)
    requires halftone.Halftone? ==> 16 <= |halftone.bits|
  {
    && |after| == |before|
    && forall x, y | 0 <= x < 16 * raster && 0 <= y < height ::
         (y + 1) * raster <= |before| && PixelCopied(a, leftward, rule, source, halftone, raster, x, y, before, after)
  }

  lemma OutcomeAt(a: Area, leftward: bool, rule: nat, source: Source, halftone: Halftone, raster: int, height: int,
                  x: int, y: int, before: seq<Word>, after: seq<Word>)
    requires halftone.Halftone? ==> 16 <= |halftone.bits|
    requires Outcome(a, leftward, rule, source, halftone, raster, height, before, after)
    requires 0 <= x < 16 * raster && 0 <= y < height && |before| == raster * height
    ensures (y + 1) * raster <= |before| == |after|
    ensures PixelCopied(a, leftward, rule, source, halftone, raster, x, y, before, after)
  {
    RowFits(raster, y, height);
  }

  lemma RowsAreOutcome(a: Area, leftward: bool, rule: nat, source: Source, halftone: Halftone, raster: int, height: int,
                       before: seq<Word>, after: seq<Word>)
    requires halftone.Halftone? ==> 16 <= |halftone.bits|
    requires 0 <= raster && |before| == raster * height && 0 < a.w
    requires RowsCopied(a, leftward, rule, source, halftone, raster, height, a.dy, a.dy + a.h, before, after)
    ensures Outcome(a, leftward, rule, source, halftone, raster, height, before, after)
  {
    forall x, y | 0 <= x < 16 * raster && 0 <= y < height
      ensures (y + 1) * raster <= |before|
              && PixelCopied(a, leftward, rule, source, halftone, raster, x, y, before, after)
    {
      RowFits(raster, y, height);
      var c := x / 16;
      assert CellCopied(a, leftward, rule, source, halftone, raster, a.dy, a.dy + a.h, y, c, before, after);
      assert x == 16 * c + x % 16;
      if c < a.FirstColumn() || a.LastColumn() < c {
        assert !Written(a, leftward, x);
      }
    }
  }

  /** The clipped area of a job. */
  function AreaOf(job: Job, source: Source): Area {
    var dx, dy := FirstX(job, source), FirstY(job, source);
    Area(dx - job.destX + job.sourceX, dy - job.destY + job.sourceY, dx, dy,
         LimitX(job, source) - dx, LimitY(job, source) - dy)
  }

  /** Rightward along the same row of the same form, within one word that is not
      covered entirely: the case in which swapping the edge masks is wrong. */
  predicate OneWordRightward(a: Area, sameForm: bool) {
    sameForm && a.dy == a.sy && a.dx > a.sx && a.Columns() == 1 && a.w != 16
  }

  predicate Leftward(a: Area, sameForm: bool) { sameForm && a.dy == a.sy && a.dx > a.sx }

  /** What is really drawn if masks that were not merged are swapped: the columns before
      the area in its word too, as far as they have a source. */
  function Drawn(a: Area, leftward: bool): Area {
    if leftward && a.Columns() == 1 && a.dx % 16 + a.w == 16
    then
      var more := Min(a.dx % 16, a.sx);
      Area(a.sx - more, a.sy, a.dx - more, a.dy, a.w + more, a.h)
    else a
  }

  lemma DrawnIsArea(a: Area, sameForm: bool)
    requires 0 <= a.dx && 0 < a.w && (Leftward(a, sameForm) ==> 0 <= a.sx)
    ensures !OneWordRightward(a, sameForm) || a.dx % 16 + a.w != 16 ==> Drawn(a, Leftward(a, sameForm)) == a
  {
  }

  lemma WrittenIsArea(a: Area, sameForm: bool, x: int)
    requires 0 <= a.dx && 0 < a.w && !OneWordRightward(a, sameForm)
    ensures Written(a, Leftward(a, sameForm), x) <==> a.dx <= x < a.dx + a.w
  {
  }

  lemma CopiedIsRendered(job: Job, source: Source, halftone: Halftone, sameForm: bool, raster: int, x: int, y: int,
                         before: seq<Word>, after: seq<Word>)
    requires halftone.Halftone? ==> 16 <= |halftone.bits|
    requires 0 <= x < 16 * raster && 0 <= y && (y + 1) * raster <= |before| == |after|
    requires 0 < AreaOf(job, source).w && !OneWordRightward(AreaOf(job, source), sameForm)
    requires PixelCopied(AreaOf(job, source), Leftward(AreaOf(job, source), sameForm), job.rule, source, halftone,
                         raster, x, y, before, after)
    ensures PixelRendered(job, source, halftone, x, y, Pixel(before, raster, x, y), Pixel(after, raster, x, y))
  {
    hide Written, Pixel, SourcePixel, InColumns, InRows, RuleBit, FirstX, FirstY, LimitX, LimitY;
    assert 0 <= AreaOf(job, source).dx by { AreaInside(job, source); }
    WrittenIsArea(AreaOf(job, source), sameForm, x);
    ClippedColumns(job, source, x);
    ClippedRows(job, source, y);
  }

  lemma AreaInside(job: Job, source: Source)
    ensures var a := AreaOf(job, source);
            && 0 <= a.dx && a.dx + a.w <= job.destWidth && 0 <= a.dy && a.dy + a.h <= job.destHeight
            && (source.Source? ==> 0 <= a.sx && a.sx + a.w <= source.width && 0 <= a.sy && a.sy + a.h <= source.height)
  {
  }

  /** Clipping depends on the size of the source only. */
  lemma AreaBySize(job: Job, s1: Source, s2: Source)
    requires s1.Source? <==> s2.Source?
    requires s1.Source? ==> s1.width == s2.width && s1.height == s2.height
    ensures AreaOf(job, s1) == AreaOf(job, s2)
  {
  }

  lemma LeftwardHasForm(a: Area, sameForm: bool)
    ensures Leftward(a, sameForm) ==> sameForm
  {
  }

  lemma DrawnInside(a: Area, leftward: bool)
    requires 0 <= a.dx && 0 < a.w && (leftward ==> 0 <= a.sx)
    ensures var d := Drawn(a, leftward);
            && 0 <= d.dx && 0 < d.w && d.dx + d.w == a.dx + a.w && d.sx + d.w == a.sx + a.w
            && (leftward ==> 0 <= d.sx) && (!leftward ==> d == a)
            && d.dy == a.dy && d.sy == a.sy && d.h == a.h
            && d.FirstColumn() == a.FirstColumn() && d.LastColumn() == a.LastColumn()
  {
  }

  lemma DrawnWritten(a: Area, leftward: bool, x: int)
    requires 0 <= a.dx && 0 < a.w && (leftward ==> 0 <= a.sx)
    ensures Written(Drawn(a, leftward), leftward, x) == Written(a, leftward, x)
  {
  }

  lemma DrawnAligned(a: Area, leftward: bool, skew: int, skewMask: Word, hDir: int, t: int)
    requires Aligned(a, skew, skewMask, hDir, t)
    ensures Aligned(Drawn(a, leftward), skew, skewMask, hDir, t)
  {
    var d := Drawn(a, leftward);
    assert d.sx - d.dx == a.sx - a.dx;
    forall k | 0 <= k < 16
      ensures BitAligned(d, skew, skewMask, hDir, t, k)
    {
      assert BitAligned(a, skew, skewMask, hDir, t, k);
    }
  }

  lemma DrawnStarts(a: Area, hDir: int, preload: bool, t: int)
    requires 0 <= a.dx && 0 < a.w && (hDir == -1 ==> 0 <= a.sx) && (hDir == 1 || hDir == -1)
    requires StartsAligned(a, hDir, preload, t)
    ensures StartsAligned(Drawn(a, hDir == -1), hDir, preload, t)
  {
    hide Drawn;
    DrawnInside(a, hDir == -1);
  }

  /** Everything the engine does for a job whose clipped area is not empty. */
  ghost predicate OutcomeOf(job: Job, source: Source, halftone: Halftone, sameForm: bool,
                            before: seq<Word>, after: seq<Word>)
    requires halftone.Halftone? ==> 16 <= |halftone.bits|
  {
    var a := AreaOf(job, source);
    Outcome(Drawn(a, Leftward(a, sameForm)), Leftward(a, sameForm), job.rule, source, halftone,
            Raster(job.destWidth), job.destHeight, before, after)
  }

  lemma OutcomeRenderedAt(job: Job, source: Source, halftone: Halftone, sameForm: bool, x: int, y: int,
                          before: seq<Word>, after: seq<Word>)
    requires halftone.Halftone? ==> 16 <= |halftone.bits|
    requires FitsDest(job, before) && 0 < AreaOf(job, source).w
    requires OutcomeOf(job, source, halftone, sameForm, before, after)
    requires !OneWordRightward(AreaOf(job, source), sameForm) && (sameForm ==> source.Source?)
    requires 0 <= x < 16 * Raster(job.destWidth) && 0 <= y < job.destHeight
    ensures (y + 1) * Raster(job.destWidth) <= |before| == |after|
    ensures PixelRendered(job, source, halftone, x, y, Pixel(before, Raster(job.destWidth), x, y),
                          Pixel(after, Raster(job.destWidth), x, y))
  {
    hide AreaOf, Leftward, OneWordRightward, PixelCopied, PixelRendered, Pixel, Raster, Drawn, Outcome;
    var a, leftward := AreaOf(job, source), Leftward(AreaOf(job, source), sameForm);
    AreaInside(job, source);
    LeftwardHasForm(a, sameForm);
    DrawnIsArea(a, sameForm);
    OutcomeAt(a, leftward, job.rule, source, halftone, Raster(job.destWidth), job.destHeight, x, y, before, after);
    CopiedIsRendered(job, source, halftone, sameForm, Raster(job.destWidth), x, y, before, after);
  }

  /** Outside the excepted case the engine does what the specification says. */
  lemma OutcomeIsRendered(job: Job, source: Source, halftone: Halftone, sameForm: bool, before: seq<Word>,
                          after: seq<Word>)
    requires halftone.Halftone? ==> 16 <= |halftone.bits|
    requires FitsDest(job, before) && 0 < AreaOf(job, source).w
    requires OutcomeOf(job, source, halftone, sameForm, before, after)
    requires !OneWordRightward(AreaOf(job, source), sameForm) && (sameForm ==> source.Source?)
    ensures Rendered(job, source, halftone, before, after)
  {
    hide AreaOf, OneWordRightward, PixelRendered, Pixel, Raster;
    assert |after| == |before|;
    hide OutcomeOf, Outcome;
    forall x, y | 0 <= x < 16 * Raster(job.destWidth) && 0 <= y < job.destHeight
      ensures (y + 1) * Raster(job.destWidth) <= |before| == |after|
      ensures PixelRendered(job, source, halftone, x, y, Pixel(before, Raster(job.destWidth), x, y),
                            Pixel(after, Raster(job.destWidth), x, y))
    {
      OutcomeRenderedAt(job, source, halftone, sameForm, x, y, before, after);
    }
  }

  lemma NothingRendered(job: Job, source: Source, halftone: Halftone, bits: seq<Word>)
    requires halftone.Halftone? ==> 16 <= |halftone.bits|
    requires FitsDest(job, bits) && (AreaOf(job, source).w <= 0 || AreaOf(job, source).h <= 0)
    ensures Rendered(job, source, halftone, bits, bits)
  {
    hide FirstX, FirstY, LimitX, LimitY, InColumns, InRows, Pixel;
    var raster := Raster(job.destWidth);
    forall x, y | 0 <= x < 16 * raster && 0 <= y < job.destHeight
      ensures (y + 1) * raster <= |bits|
      ensures PixelRendered(job, source, halftone, x, y, Pixel(bits, raster, x, y), Pixel(bits, raster, x, y))
    {
      RowFits(raster, y, job.destHeight);
      ClippedColumns(job, source, x);
      ClippedRows(job, source, y);
    }
  }

  /** The place of a word in its bitmap. */
  lemma WordPlace(i: nat, raster: int, height: int)
    requires 0 <= raster && i < raster * height
    ensures 0 < raster && 0 <= i / raster < height && 0 <= i % raster < raster && i == i / raster * raster + i % raster
  {
    assert raster == 0 ==> raster * height == 0;
    var y := i / raster;
    assert i == y * raster + i % raster;
    assert height <= y ==> height * raster <= y * raster;
  }

  /** In the excepted case nothing at all is drawn, unless the row ends with its word. */
  lemma NothingDrawn(job: Job, source: Source, halftone: Halftone, sameForm: bool, before: seq<Word>, after: seq<Word>)
    requires halftone.Halftone? ==> 16 <= |halftone.bits|
    requires FitsDest(job, before) && 0 < AreaOf(job, source).w && 0 < AreaOf(job, source).h
    requires OutcomeOf(job, source, halftone, sameForm, before, after)
    requires OneWordRightward(AreaOf(job, source), sameForm)
             && AreaOf(job, source).dx % 16 + AreaOf(job, source).w != 16
    ensures after == before
  {
    hide AreaOf, Raster, Outcome;
    var a, raster, leftward := AreaOf(job, source), Raster(job.destWidth), Leftward(AreaOf(job, source), sameForm);
    assert |after| == |before| by {
      SameLength(a, leftward, job.rule, source, halftone, raster, job.destHeight, before, after);
    }
    forall i | 0 <= i < |before|
      ensures after[i] == before[i]
    {
      WordPlace(i, raster, job.destHeight);
      var y, c := i / raster, i % raster;
      forall k | 0 <= k < 16
        ensures after[i][k] == before[i][k]
      {
        OutcomeAt(a, leftward, job.rule, source, halftone, raster, job.destHeight, 16 * c + k, y, before, after);
        assert (16 * c + k) / 16 == c && (16 * c + k) % 16 == k;
      }
      assert after[i] == before[i];
    }
  }

  lemma SameLength(a: Area, leftward: bool, rule: nat, source: Source, halftone: Halftone, raster: int, height: int,
                   before: seq<Word>, after: seq<Word>)
    requires halftone.Halftone? ==> 16 <= |halftone.bits|
    requires Outcome(a, leftward, rule, source, halftone, raster, height, before, after)
    ensures |after| == |before|
  {
  }
}
