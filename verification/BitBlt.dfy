/** The raster engine: sixteen pixels at a time. */
module BitBlts {
  import opened Basics
  import opened Words
  import opened OneWord
  import opened Raster

  /** A form: its bitmap, an object of its own, and its size in pixels. */
  datatype Form = Form(bits: array<Word>, width: int, height: int)

  /** The part of object memory the engine touches. */
  class ObjectMemory {
    const forms: map<Oop, Form>

    constructor (forms: map<Oop, Form>)
      ensures this.forms == forms
    {
      this.forms := forms;
    }
  }

  class BitBlt {
    const memory: ObjectMemory
    const destForm: Oop
    const sourceForm: Oop
    const halftoneForm: Oop
    const combinationRule: nat
    var destX: int
    var destY: int
    var width: int
    var height: int
    var sourceX: int
    var sourceY: int
    var clipX: int
    var clipY: int
    var clipWidth: int
    var clipHeight: int

    var sourceBits: array<Word>
    var sourceRaster: int
    var destBits: array<Word>
    var destRaster: int
    var halftoneBits: array<Word>
    var skew: int
    var preload: bool
    var nWords: int
    var hDir: int
    var vDir: int
    var sourceIndex: int
    var sourceDelta: int
    var destIndex: int
    var destDelta: int
    var sx: int
    var sy: int
    var dx: int
    var dy: int
    var w: int
    var h: int
    var mask1: Word
    var mask2: Word
    var skewMask: Word
    var sourceBitsWordLength: int
    var destBitsWordLength: int

    const sourceFormWidth: int
    const sourceFormHeight: int
    const destFormWidth: int
    const destFormHeight: int
    var updatedX: int
    var updatedY: int
    var updatedWidth: int
    var updatedHeight: int

    constructor (memory: ObjectMemory, destForm: Oop, sourceForm: Oop, halftoneForm: Oop, combinationRule: nat,
                 destX: int, destY: int, width: int, height: int, sourceX: int, sourceY: int,
                 clipX: int, clipY: int, clipWidth: int, clipHeight: int)
      requires destForm in memory.forms
      requires sourceForm != NIL ==> sourceForm in memory.forms
      ensures this.memory == memory && this.destForm == destForm && this.sourceForm == sourceForm
      ensures this.halftoneForm == halftoneForm && this.combinationRule == combinationRule
      ensures TheJob() == Job(combinationRule, destX, destY, width, height, sourceX, sourceY,
                              clipX, clipY, clipWidth, clipHeight,
                              memory.forms[destForm].width, memory.forms[destForm].height)
      ensures sourceForm != NIL ==> sourceFormWidth == memory.forms[sourceForm].width
                                    && sourceFormHeight == memory.forms[sourceForm].height
    {
      this.memory, this.destForm, this.sourceForm := memory, destForm, sourceForm;
      this.halftoneForm, this.combinationRule := halftoneForm, combinationRule;
      this.destX, this.destY, this.width, this.height := destX, destY, width, height;
      this.sourceX, this.sourceY := sourceX, sourceY;
      this.clipX, this.clipY, this.clipWidth, this.clipHeight := clipX, clipY, clipWidth, clipHeight;
      if sourceForm != NIL {
        sourceFormWidth, sourceFormHeight := memory.forms[sourceForm].width, memory.forms[sourceForm].height;
      } else {
        sourceFormWidth, sourceFormHeight := 0, 0;
      }
      destFormWidth, destFormHeight := memory.forms[destForm].width, memory.forms[destForm].height;
      updatedX, updatedY, updatedWidth, updatedHeight := 0, 0, 0, 0;
      mask1, mask2, skewMask := ZERO, ZERO, ZERO;
      sourceBits, destBits, halftoneBits := new Word[0], new Word[0], new Word[0];
    }

    ghost function TheJob(): Job
      reads this
    {
      Job(combinationRule, destX, destY, width, height, sourceX, sourceY,
          clipX, clipY, clipWidth, clipHeight, destFormWidth, destFormHeight)
    }

    /** What the engine needs of object memory: forms of non-negative size, a
        sixteen word halftone, and bitmaps shared by no two different forms. */
    ghost predicate Valid()
    {
      && combinationRule < 16
      && destForm != NIL && destForm in memory.forms
      && memory.forms[destForm].width == destFormWidth && memory.forms[destForm].height == destFormHeight
      && 0 <= destFormWidth && 0 <= destFormHeight
      && (sourceForm != NIL ==>
            && sourceForm in memory.forms
            && memory.forms[sourceForm].width == sourceFormWidth && memory.forms[sourceForm].height == sourceFormHeight
            && 0 <= sourceFormWidth && 0 <= sourceFormHeight
            && (memory.forms[sourceForm].bits == memory.forms[destForm].bits ==> sourceForm == destForm))
      && (halftoneForm != NIL ==>
            && halftoneForm in memory.forms
            && memory.forms[halftoneForm].bits != memory.forms[destForm].bits
            && 16 <= memory.forms[halftoneForm].bits.Length)
    }

    ghost function TheSource(): Source
      requires Valid()
      reads if sourceForm == NIL then {} else {memory.forms[sourceForm].bits}
    {
      if sourceForm == NIL then NoSource
      else Source(memory.forms[sourceForm].bits[..], Raster.Raster(sourceFormWidth), sourceFormWidth, sourceFormHeight)
    }

    ghost function TheHalftone(): Halftone
      requires Valid()
      reads if halftoneForm == NIL then {} else {memory.forms[halftoneForm].bits}
      ensures TheHalftone().Halftone? ==> 16 <= |TheHalftone().bits|
    {
      if halftoneForm == NIL then NoHalftone else Halftone(memory.forms[halftoneForm].bits[..])
    }

    /** The arguments of the specification are the engine's own, and those of its forms. */
    lemma Arguments()
      requires Valid()
      ensures TheJob().rule == combinationRule
      ensures TheJob().destX == destX && TheJob().destY == destY && TheJob().width == width && TheJob().height == height
      ensures TheJob().sourceX == sourceX && TheJob().sourceY == sourceY
      ensures TheJob().clipX == clipX && TheJob().clipY == clipY
      ensures TheJob().clipWidth == clipWidth && TheJob().clipHeight == clipHeight
      ensures TheJob().destWidth == memory.forms[destForm].width && TheJob().destHeight == memory.forms[destForm].height
      ensures if sourceForm == 2 then TheSource().NoSource?
              else TheSource().Source? && TheSource().bits == memory.forms[sourceForm].bits[..]
                   && TheSource().width == memory.forms[sourceForm].width
                   && TheSource().height == memory.forms[sourceForm].height
                   && TheSource().raster == (memory.forms[sourceForm].width + 15) / 16
      ensures if halftoneForm == 2 then TheHalftone().NoHalftone?
              else TheHalftone() == Halftone(memory.forms[halftoneForm].bits[..])
    {
    }

    /** The size of the source form, whatever its bits. */
    ghost function Extent(): Source
      reads this
    {
      if sourceForm == NIL then NoSource else Source([], 0, sourceFormWidth, sourceFormHeight)
    }

    ghost function TheArea(): Area
      reads this
    {
      Area(sx, sy, dx, dy, w, h)
    }

    /** The clipping rectangle, cut down to the destination form. */
    method ClipToForm()
      modifies this`clipX, this`clipY, this`clipWidth, this`clipHeight
      ensures clipX == Max(old(clipX), 0) && clipX + clipWidth == Min(old(clipX) + old(clipWidth), destFormWidth)
      ensures clipY == Max(old(clipY), 0) && clipY + clipHeight == Min(old(clipY) + old(clipHeight), destFormHeight)
    {
      if clipX < 0 {
        clipWidth := clipWidth + clipX;
        clipX := 0;
      }
      if clipY < 0 {
        clipHeight := clipHeight + clipY;
        clipY := 0;
      }
      if clipX + clipWidth > destFormWidth {
        clipWidth := destFormWidth - clipX;
      }
      if clipY + clipHeight > destFormHeight {
        clipHeight := destFormHeight - clipY;
      }
    }

    /** The destination rectangle, cut down to the clipping rectangle: first in x ... */
    method ClipColumns()
      modifies this`sx, this`dx, this`w
      ensures dx == Max(destX, clipX) && dx + w == Min(destX + width, clipX + clipWidth)
      ensures sx - dx == sourceX - destX
    {
      if destX >= clipX {
        sx := sourceX;
        dx := destX;
        w := width;
      } else {
        sx := sourceX + (clipX - destX);
        w := width - (clipX - destX);
        dx := clipX;
      }
      if dx + w > clipX + clipWidth {
        w := w - ((dx + w) - (clipX + clipWidth));
      }
    }

    /** ... then in y. */
    method ClipRows()
      modifies this`sy, this`dy, this`h
      ensures dy == Max(destY, clipY) && dy + h == Min(destY + height, clipY + clipHeight)
      ensures sy - dy == sourceY - destY
    {
      if destY >= clipY {
        sy := sourceY;
        dy := destY;
        h := height;
      } else {
        sy := sourceY + clipY - destY;
        h := height - (clipY - destY);
        dy := clipY;
      }
      if dy + h > clipY + clipHeight {
        h := h - ((dy + h) - (clipY + clipHeight));
      }
    }

    /** What is left, cut down to the source form. */
    method ClipSource()
      modifies this`sx, this`sy, this`dx, this`dy, this`w, this`h
      ensures sx - dx == old(sx) - old(dx) && sy - dy == old(sy) - old(dy)
      ensures dx == Max(old(dx), old(dx) - old(sx))
      ensures dx + w == Min(old(dx) + old(w), old(dx) - old(sx) + sourceFormWidth)
      ensures dy == Max(old(dy), old(dy) - old(sy))
      ensures dy + h == Min(old(dy) + old(h), old(dy) - old(sy) + sourceFormHeight)
    {
      if sx < 0 {
        dx := dx - sx;
        w := w + sx;
        sx := 0;
      }
      if sx + w > sourceFormWidth {
        w := w - (sx + w - sourceFormWidth);
      }
      if sy < 0 {
        dy := dy - sy;
        h := h + sy;
        sy := 0;
      }
      if sy + h > sourceFormHeight {
        h := h - (sy + h - sourceFormHeight);
      }
    }

    /** Clips the transfer to exactly the pixels that have a place in all four
        rectangles; the result is empty (w or h not positive) iff none has. */
    method ClipRange()
      modifies this`clipX, this`clipY, this`clipWidth, this`clipHeight
      modifies this`sx, this`sy, this`dx, this`dy, this`w, this`h
      ensures TheArea() == AreaOf(old(TheJob()), Extent())
    {
      ClipToForm();
      ClipColumns();
      ClipRows();
      if sourceForm == NIL {
        return;
      }
      ClipSource();
    }

    /** The bitmaps and their pitch in words. */
    method FetchBitmaps()
      requires Valid() && 0 < destFormWidth
      requires sourceForm != NIL ==> 0 < sourceFormWidth
      modifies this`destBits, this`destBitsWordLength, this`destRaster
      modifies this`sourceBits, this`sourceBitsWordLength, this`sourceRaster, this`halftoneBits
      ensures destBits == memory.forms[destForm].bits && destRaster == Raster.Raster(destFormWidth)
      ensures destBitsWordLength == destBits.Length
      ensures sourceForm != NIL ==>
                && sourceBits == memory.forms[sourceForm].bits && sourceRaster == Raster.Raster(sourceFormWidth)
                && sourceBitsWordLength == sourceBits.Length
      ensures halftoneForm != NIL ==> halftoneBits == memory.forms[halftoneForm].bits
    {
      destBits := memory.forms[destForm].bits;
      destBitsWordLength := destBits.Length;
      destRaster := (destFormWidth - 1) / 16 + 1;
      if sourceForm != NIL {
        sourceBits := memory.forms[sourceForm].bits;
        sourceBitsWordLength := sourceBits.Length;
        sourceRaster := (sourceFormWidth - 1) / 16 + 1;
      } else {
        sourceBitsWordLength := 0;
      }
      if halftoneForm != NIL {
        halftoneBits := memory.forms[halftoneForm].bits;
      }
    }

    /** The masks cut out of the table are those of the edges. */
    lemma MasksAreEdges(a: Area)
      requires 0 < a.w && 0 <= a.dx
      ensures var startBits, endBits := 16 - a.dx % 16, 15 - (a.dx + a.w - 1) % 16;
              var left, right := RightMask(startBits), Not(RightMask(endBits));
              if a.w < startBits then EdgeMasks(a, And(left, right), ZERO) else EdgeMasks(a, left, right)
    {
      WordsPerRow(a);
    }

    /** Skew, edge masks and the number of words in a row. */
    method ComputeMasks()
      requires 0 < w && 0 <= dx
      modifies this`skew, this`mask1, this`mask2, this`skewMask, this`nWords
      ensures skew == (sx - dx) % 16 && skewMask == if skew == 0 then ZERO else RightMask(16 - skew)
      ensures nWords == TheArea().Columns()
      ensures EdgeMasks(TheArea(), mask1, mask2)
    {
      hide EdgeMasks, RightMask, And, Not;
      MasksAreEdges(TheArea());
      // how many bits source gets skewed to right
      skew := (sx - dx) % 16;
      // how many bits in first word
      var startBits := 16 - dx % 16;
      mask1 := RightMask(startBits);
      // how many bits in last word
      var endBits := 15 - (dx + w - 1) % 16;
      mask2 := Not(RightMask(endBits));
      skewMask := if skew == 0 then ZERO else RightMask(16 - skew);
      // number of words stored per line; merge masks if necessary
      if w < startBits {
        mask1 := And(mask1, mask2);
        mask2 := ZERO;
        nWords := 1;
      } else {
        nWords := (w - startBits + 15) / 16 + 1;
      }
      WordsPerRow(TheArea());
    }

    /** Directions, and the corner to start from, when source and destination overlap. */
    method CheckOverlap()
      modifies this`hDir, this`vDir, this`sx, this`sy, this`dx, this`dy, this`skewMask, this`mask1, this`mask2
      ensures vDir == (if sourceForm == destForm && old(dy) > old(sy) then -1 else 1)
      ensures hDir == (if sourceForm == destForm && old(dy) == old(sy) && old(dx) > old(sx) then -1 else 1)
      ensures sy == old(sy) + (if vDir == -1 then h - 1 else 0) && dy == old(dy) + (if vDir == -1 then h - 1 else 0)
      ensures sx == old(sx) + (if hDir == -1 then w - 1 else 0) && dx == old(dx) + (if hDir == -1 then w - 1 else 0)
      ensures skewMask == if hDir == -1 then Not(old(skewMask)) else old(skewMask)
      ensures mask1 == (if hDir == -1 then old(mask2) else old(mask1))
      ensures mask2 == (if hDir == -1 then old(mask1) else old(mask2))
    {
      hDir, vDir := 1, 1;  // defaults for no overlap
      if sourceForm == destForm && dy >= sy {
        if dy > sy {
          // have to start at bottom
          vDir := -1;
          sy := sy + h - 1;
          dy := dy + h - 1;
        } else if dx > sx {
          // y's are equal, but x's are backward
          hDir := -1;
          // start at right
          sx := sx + w - 1;
          dx := dx + w - 1;
          // and fix up masks
          skewMask := Not(skewMask);
          var t := mask1;
          mask1 := mask2;
          mask2 := t;
        }
      }
    }

    /** Starting offsets and increments from the end of one line to the start of the next. */
    method CalculateOffsets()
      requires (hDir == 1 || hDir == -1) && (vDir == 1 || vDir == -1)
      modifies this`preload, this`sourceIndex, this`destIndex, this`sourceDelta, this`destDelta
      ensures preload == ((sourceForm != NIL && skew != 0 && skew <= sx % 16) != (hDir < 0))
      ensures sourceIndex == RowIndex(sy, sourceRaster) + sx / 16
      ensures destIndex == RowIndex(dy, destRaster) + dx / 16
      ensures sourceDelta == Along(vDir, sourceRaster) - Along(hDir, nWords + if preload then 1 else 0)
      ensures destDelta == Along(vDir, destRaster) - Along(hDir, nWords)
    {
      // need to preload buffer? (two words of source needed for first word of destination)
      preload := sourceForm != NIL && skew != 0 && skew <= sx % 16;
      if hDir < 0 {
        preload := !preload;
      }
      sourceIndex := sy * sourceRaster + sx / 16;
      destIndex := dy * destRaster + dx / 16;
      sourceDelta := sourceRaster * vDir - (nWords + (if preload then 1 else 0)) * hDir;
      destDelta := destRaster * vDir - nWords * hDir;
    }

    /** The destination word column at step n of a row. */
    ghost function ColumnAt(a: Area, n: int): int
      reads this`hDir
    {
      if hDir == 1 then a.FirstColumn() + n - 1 else a.LastColumn() - n + 1
    }

    /** The merge mask at step n of a row. */
    ghost function MaskAt(n: int): Word
      reads this`mask1, this`mask2, this`nWords
    {
      if n == 1 then mask1 else if n == nWords then mask2 else ALL_ONES
    }

    ghost predicate MaskFits(a: Area, n: int)
      reads this`hDir, this`mask1, this`mask2, this`nWords
    {
      forall k | 0 <= k < 16 :: MaskAt(n)[k] == Written(a, hDir == -1, 16 * ColumnAt(a, n) + k)
    }

    /** Everything the copying loops rely on and do not change: area `a` lies in
        both forms, masks and skew fit it, the source column runs `t` ahead of
        the destination column, and no source word is read after it was changed. */
    ghost predicate Planned(a: Area, t: int, source: Source)
      reads this`hDir, this`vDir, this`destBits, this`destRaster, this`destBitsWordLength, this`halftoneBits
      reads this`sourceBits, this`sourceRaster, this`sourceBitsWordLength, this`preload
      reads this`nWords, this`h, this`mask1, this`mask2, this`skew, this`skewMask, this`destDelta, this`sourceDelta
    {
      && combinationRule < 16
      && (hDir == 1 || hDir == -1) && (vDir == 1 || vDir == -1)
      && destRaster == Raster.Raster(destFormWidth) && destBitsWordLength == destRaster * destFormHeight
      && (halftoneForm != NIL ==> halftoneBits != destBits)
      && 0 < a.w && 0 <= a.dx && a.dx + a.w <= destFormWidth
      && 0 < a.h && 0 <= a.dy && a.dy + a.h <= destFormHeight
      && nWords == a.Columns() && h == a.h
      && (forall n | 1 <= n <= nWords :: MaskFits(a, n))
      && destDelta == Along(vDir, destRaster) - Along(hDir, nWords)
      && (sourceForm != NIL ==>
            sourceDelta == Along(vDir, sourceRaster) - Along(hDir, nWords + if preload then 1 else 0))
      && (sourceForm == NIL <==> source == NoSource)
      && (sourceForm == NIL ==> !preload)
      && (sourceForm != NIL ==> PlannedSource(a, t, source))
    }

    ghost predicate PlannedSource(a: Area, t: int, source: Source)
      reads this`hDir, this`vDir, this`destBits, this`destRaster
      reads this`sourceBits, this`sourceRaster, this`sourceBitsWordLength, this`preload, this`skew, this`skewMask
    {
      && source.Source?
      && sourceRaster == Raster.Raster(sourceFormWidth) && sourceBitsWordLength == sourceRaster * sourceFormHeight
      && source.raster == sourceRaster && |source.bits| == sourceBitsWordLength
      && 0 <= a.sx && a.sx + a.w <= sourceFormWidth && 0 <= a.sy && a.sy + a.h <= sourceFormHeight
      && Aligned(a, skew, skewMask, hDir, t)
      && StartsAligned(a, hDir, preload, t)
      && (sourceBits == destBits ==>
            && sourceRaster == destRaster && sourceFormHeight == destFormHeight
            && (if vDir == 1 then a.dy <= a.sy else a.dy > a.sy)
            && (a.dy == a.sy ==> if hDir == 1 then 0 <= t else t <= 0))
    }

    /** The bitmaps have their full length. */
    ghost predicate Held()
      reads this`destBits, this`destBitsWordLength, this`sourceBits, this`sourceBitsWordLength, this`halftoneBits
    {
      && destBits.Length == destBitsWordLength
      && (sourceForm != NIL ==> sourceBits.Length == sourceBitsWordLength)
      && (halftoneForm != NIL ==> 16 <= halftoneBits.Length)
    }

    /** Source half of a step of the horizontal loop: fetch the next source word
        (if the row has one), combine it with the previous one and rotate. */
    method ShiftSource(word: int, prevWord: Word, thisWord0: Word,
                       ghost a: Area, ghost t: int, ghost source: Source, ghost column: int,
                       ghost ys: int, ghost start: int)
      returns (thisWord: Word, skewWord: Word)
      requires sourceForm != NIL && PlannedSource(a, t, source)
      requires sourceBits.Length == sourceBitsWordLength
      requires 0 <= ys && 0 <= start == ys * sourceRaster && start + sourceRaster <= |source.bits|
      requires sourceIndex == start + column + t
      requires Fetched(a, source, start, column + t - hDir, prevWord)
      requires a.Needed(column + t) ==>
                 && word <= sourceRaster && 0 <= column + t < sourceRaster
                 && sourceBits[sourceIndex] == source.bits[sourceIndex]
      ensures Fetched(a, source, start, column + t, thisWord)
      ensures SkewedFits(a, source, column, ys, skewWord)
    {
      thisWord := thisWord0;
      if word <= sourceRaster && sourceIndex >= 0 && sourceIndex < sourceBitsWordLength {
        thisWord := sourceBits[sourceIndex];
      }
      skewWord := Or(And(prevWord, skewMask), And(thisWord, Not(skewMask)));
      // 16-bit rotate
      skewWord := Or(ShiftLeft(skewWord, skew), ShiftRight(skewWord, 16 - skew));
      SkewedColumn(a, skew, skewMask, hDir, t, source, column, ys, start, prevWord, thisWord);
    }

    /** The destination bitmap while a row is being copied: columns lo to hi are
        done, and everything else is still as in `before`. */
    ghost predicate RowSoFar(a: Area, source: Source, half: Word, ys: int, first: int, lo: int, hi: int,
                             before: seq<Word>)
      reads this`hDir, this`destBits, destBits
    {
      RowPart(a, hDir == -1, combinationRule, source, half, ys, first, lo, hi, before, destBits[..])
    }

    /** Destination half: merge into the destination word under the mask. */
    method StoreMerged(skewWord: Word, halftoneWord: Word, mergeMask: Word,
                       ghost a: Area, ghost source: Source, ghost column: int, ghost ys: int,
                       ghost first: int, ghost lo: int, ghost hi: int, ghost before: seq<Word>)
      requires combinationRule < 16 && 0 <= destIndex < destBits.Length
      requires forall k | 0 <= k < 16 :: mergeMask[k] == Written(a, hDir == -1, 16 * column + k)
      requires SkewedFits(a, source, column, ys, skewWord) || (source.NoSource? && skewWord == halftoneWord)
      requires RowSoFar(a, source, halftoneWord, ys, first, lo, hi, before)
      requires lo <= hi && (destIndex == first + lo - 1 || destIndex == first + hi)
      requires column == a.FirstColumn() + (destIndex - first)
      modifies destBits
      ensures destIndex == first + lo - 1 ==> RowSoFar(a, source, halftoneWord, ys, first, lo - 1, hi, before)
      ensures destIndex == first + hi ==> RowSoFar(a, source, halftoneWord, ys, first, lo, hi + 1, before)
    {
      var destWord := destBits[destIndex];
      var mergeWord := Merge(combinationRule, And(skewWord, halftoneWord), destWord);
      var stored := Or(And(mergeMask, mergeWord), And(Not(mergeMask), destWord));
      MergedWord(a, hDir == -1, combinationRule, source, halftoneWord, column, ys, mergeMask, skewWord, destWord);
      RowPartGrows(a, hDir == -1, combinationRule, source, halftoneWord, ys, first, lo, hi,
                   before, destBits[..], destIndex, stored);
      ghost var now := destBits[..];
      destBits[destIndex] := stored;
      assert destBits[..] == Put(now, destIndex, stored);
    }

    /** In step `word`, the source word about to be fetched is one of this row and
        is still what it was when the transfer began, if any pixel of it is needed. */
    ghost predicate NextIntact(a: Area, t: int, source: Source, column: int, word: int)
      requires source.Source?
      reads this`sourceBits, this`sourceRaster, this`sourceIndex, sourceBits
    {
      a.Needed(column + t) ==>
        && word <= sourceRaster && 0 <= column + t < sourceRaster
        && 0 <= sourceIndex < sourceBits.Length == |source.bits|
        && sourceBits[sourceIndex] == source.bits[sourceIndex]
    }

    lemma SourceIntact(a: Area, t: int, source: Source, half: Word, ys: int, base: int, start: int,
                       column: int, word: int, lo: int, hi: int, before: seq<Word>, sourceBefore: seq<Word>)
      requires sourceForm != NIL && PlannedSource(a, t, source) && 0 < a.w
      requires (hDir == 1 || hDir == -1) && 1 <= word <= a.Columns() && column == ColumnAt(a, word)
      requires if hDir == 1 then lo == 0 && hi == word - 1 else lo == a.Columns() - word + 1 && hi == a.Columns()
      requires RowIntact(source, start, sourceBefore) && sourceIndex == start + column + t
      requires if sourceBits == destBits
               then && before == sourceBefore && ReadFirst(hDir, t, source.raster, base, start)
                    && 0 <= a.dx && a.LastColumn() < source.raster
                    && RowSoFar(a, source, half, ys, base + a.FirstColumn(), lo, hi, before)
               else sourceBits[..] == sourceBefore
      ensures NextIntact(a, t, source, column, word)
    {
      hide Aligned;
      if a.Needed(column + t) {
        FetchInRow(a, hDir, preload, t, sourceRaster, word, column);
        if sourceBits == destBits {
          SourceUnchanged(a, hDir == -1, combinationRule, source, half, ys, t, base, start, column,
                          lo, hi, before, destBits[..]);
        }
      }
    }

    lemma NothingCopied(a: Area, source: Source, half: Word, ys: int, first: int, lo: int)
      ensures RowSoFar(a, source, half, ys, first, lo, lo, destBits[..])
    {
    }

    lemma MaskInPlace(a: Area, n: int, mask: Word)
      requires MaskFits(a, n) && mask == MaskAt(n)
      ensures forall k | 0 <= k < 16 :: mask[k] == Written(a, hDir == -1, 16 * ColumnAt(a, n) + k)
    {
    }

    /** One step of the horizontal loop. */
    method CopyWord(word: int, halftoneWord: Word, mergeMask: Word, prevWord: Word, thisWord0: Word, skewWord0: Word,
                    ghost a: Area, ghost t: int, ghost source: Source, ghost ys: int, ghost start: int,
                    ghost column: int, ghost first: int, ghost lo: int, ghost hi: int, ghost before: seq<Word>)
      returns (thisWord: Word, skewWord: Word)
      requires combinationRule < 16 && Held() && (hDir == 1 || hDir == -1)
      requires sourceForm == NIL ==> source.NoSource? && skewWord0 == halftoneWord
      requires sourceForm != NIL ==>
                 && PlannedSource(a, t, source)
                 && 0 <= ys && 0 <= start == ys * sourceRaster && start + sourceRaster <= |source.bits|
                 && sourceIndex == start + column + t && Fetched(a, source, start, column + t - hDir, prevWord)
                 && NextIntact(a, t, source, column, word)
      requires 0 <= destIndex < destBitsWordLength && column == a.FirstColumn() + (destIndex - first)
      requires forall k | 0 <= k < 16 :: mergeMask[k] == Written(a, hDir == -1, 16 * column + k)
      requires lo <= hi && destIndex == if hDir == 1 then first + hi else first + lo - 1
      requires RowSoFar(a, source, halftoneWord, ys, first, lo, hi, before)
      modifies destBits
      ensures sourceForm == NIL ==> skewWord == halftoneWord
      ensures sourceForm != NIL ==> Fetched(a, source, start, column + t, thisWord)
      ensures RowSoFar(a, source, halftoneWord, ys, first,
                       if hDir == 1 then lo else lo - 1, if hDir == 1 then hi + 1 else hi, before)
    {
      hide Aligned, RowPart;
      thisWord, skewWord := thisWord0, skewWord0;
      if sourceForm != NIL {
        // if source used
        thisWord, skewWord := ShiftSource(word, prevWord, thisWord, a, t, source, column, ys, start);
      }
      if destIndex >= destBitsWordLength {
        assert false;
      }
      StoreMerged(skewWord, halftoneWord, mergeMask, a, source, column, ys, first, lo, hi, before);
    }

    /** A row is ready to be copied: its first index and its masks ... */
    ghost predicate RowReady(a: Area, source: Source, base: int)
      reads this`hDir, this`destRaster, this`destBitsWordLength, this`preload, this`destIndex
      reads this`nWords, this`mask1, this`mask2
    {
      && combinationRule < 16 && (hDir == 1 || hDir == -1)
      && 0 <= a.FirstColumn() <= a.LastColumn() < destRaster && nWords == a.Columns()
      && 0 <= base && base + destRaster <= destBitsWordLength && destIndex == base + ColumnAt(a, 1)
      && (forall n | 1 <= n <= nWords :: MaskFits(a, n))
      && (sourceForm == NIL ==> source.NoSource? && !preload)
    }

    /** ... and its source row intact and read before it is overwritten. */
    ghost predicate SourceReady(a: Area, t: int, source: Source, ys: int, base: int, start: int)
      reads this`hDir, this`vDir, this`destBits, this`destRaster, this`preload, this`skew, this`skewMask
      reads this`sourceBits, this`sourceRaster, this`sourceBitsWordLength, this`sourceIndex, sourceBits
    {
      && SourcePlanned(a, t, source, ys, base, start)
      && source.Source? && 0 <= start && start + source.raster <= |source.bits|
      && RowIntact(source, start, sourceBits[..])
      && sourceIndex + (if preload then hDir else 0) == start + ColumnAt(a, 1) + t
      && (preload ==> 0 <= sourceIndex < sourceBits.Length)
      && Fetched(a, source, start, ColumnAt(a, 1) + t - hDir, if preload then sourceBits[sourceIndex] else ZERO)
    }

    /** The columns done before step `word` of a row. */
    ghost function From(word: int): int
      reads this`hDir, this`nWords
    {
      if hDir == 1 then 0 else nWords - word + 1
    }

    ghost function UpTo(word: int): int
      reads this`hDir, this`nWords
    {
      if hDir == 1 then word - 1 else nWords
    }

    /** What holds before step `word` of a row. */
    ghost predicate WordState(a: Area, t: int, source: Source, half: Word, ys: int, base: int, start: int, word: int,
                              prevWord: Word, before: seq<Word>, sourceBefore: seq<Word>)
      reads this`hDir, this`nWords, this`destBits, this`destIndex, this`sourceBits, this`sourceIndex
      reads destBits, sourceBits
    {
      && destIndex == base + ColumnAt(a, word)
      && (sourceForm != NIL ==>
            && source.Source? && 0 <= start && start + source.raster <= |source.bits|
            && sourceIndex == start + ColumnAt(a, word) + t
            && Fetched(a, source, start, ColumnAt(a, word) + t - hDir, prevWord))
      && (sourceBits != destBits ==> sourceBits[..] == sourceBefore)
      && RowSoFar(a, source, half, ys, base + a.FirstColumn(), From(word), UpTo(word), before)
    }

    /** Step `word` of a row. */
    method NextWord(word: int, halftoneWord: Word, mergeMask: Word, prevWord: Word, thisWord0: Word, skewWord0: Word,
                    ghost a: Area, ghost t: int, ghost source: Source, ghost ys: int, ghost base: int,
                    ghost start: int, ghost before: seq<Word>, ghost sourceBefore: seq<Word>)
      returns (thisWord: Word, skewWord: Word)
      requires Held() && combinationRule < 16 && (hDir == 1 || hDir == -1) && 1 <= word <= nWords == a.Columns()
      requires 0 <= a.FirstColumn() <= a.LastColumn() < destRaster
      requires 0 <= base && base + destRaster <= destBitsWordLength
      requires sourceForm == NIL ==> source.NoSource? && skewWord0 == halftoneWord
      requires sourceForm != NIL ==>
                 && SourcePlanned(a, t, source, ys, base, start) && RowIntact(source, start, sourceBefore)
                 && (sourceBits == destBits ==> before == sourceBefore)
      requires MaskFits(a, word) && mergeMask == MaskAt(word)
      requires WordState(a, t, source, halftoneWord, ys, base, start, word, prevWord, before, sourceBefore)
      modifies this`sourceIndex, this`destIndex, destBits
      ensures sourceForm == NIL ==> skewWord == halftoneWord
      ensures WordState(a, t, source, halftoneWord, ys, base, start, word + 1, thisWord, before, sourceBefore)
    {
      hide RowSoFar, NextIntact, Held, MaskFits, RowIntact, ReadFirst, PlannedSource, Fetched;
      hide Area.FirstColumn, Area.LastColumn;
      ghost var column, first := ColumnAt(a, word), base + a.FirstColumn();
      if sourceForm != NIL {
        SourceIntact(a, t, source, halftoneWord, ys, base, start, column, word, From(word), UpTo(word),
                     before, sourceBefore);
      }
      MaskInPlace(a, word, mergeMask);
      thisWord, skewWord := CopyWord(word, halftoneWord, mergeMask, prevWord, thisWord0, skewWord0, a, t, source, ys,
                                     start, column, first, From(word), UpTo(word), before);
      sourceIndex := sourceIndex + hDir;
      destIndex := destIndex + hDir;
    }

    /** The source row and the plan for it. */
    ghost predicate SourcePlanned(a: Area, t: int, source: Source, ys: int, base: int, start: int)
      reads this`hDir, this`vDir, this`destBits, this`destRaster, this`preload, this`skew, this`skewMask
      reads this`sourceBits, this`sourceRaster, this`sourceBitsWordLength
    {
      && PlannedSource(a, t, source) && 0 < a.w && 0 <= a.dx && source.Source? && source.raster == sourceRaster
      && (sourceBits == destBits ==> sourceRaster == destRaster)
      && 0 <= ys && 0 <= start == ys * sourceRaster && start + sourceRaster <= |source.bits|
      && (sourceBits == destBits ==> ReadFirst(hDir, t, sourceRaster, base, start))
    }

    /** The horizontal loop: one row of the area. */
    method CopyRow(halftoneWord: Word, thisWord0: Word,
                   ghost a: Area, ghost t: int, ghost source: Source, ghost ys: int, ghost base: int, ghost start: int)
      returns (thisWord: Word)
      requires RowReady(a, source, base) && Held()
      requires sourceForm != NIL ==> SourceReady(a, t, source, ys, base, start)
      modifies this`sourceIndex, this`destIndex, destBits
      ensures destIndex == base + ColumnAt(a, nWords + 1)
      ensures sourceForm != NIL ==> sourceIndex == start + ColumnAt(a, nWords + 1) + t
      ensures RowSoFar(a, source, halftoneWord, ys, base + a.FirstColumn(), 0, nWords, old(destBits[..]))
    {
      hide RowSoFar, NextIntact, Held, MaskFits, RowIntact, SourcePlanned, Fetched, Area.FirstColumn, Area.LastColumn;
      thisWord := thisWord0;
      ghost var before, sourceBefore := destBits[..], sourceBits[..];
      var skewWord := halftoneWord;
      var prevWord: Word;
      if preload {
        // load the 32-bit shifter
        prevWord := sourceBits[sourceIndex];
        sourceIndex := sourceIndex + hDir;
      } else {
        prevWord := ZERO;
      }
      var mergeMask := mask1;
      NothingCopied(a, source, halftoneWord, ys, base + a.FirstColumn(), From(1));
      var word := 1;
      while word <= nWords
        invariant 1 <= word <= nWords + 1
        invariant word <= nWords ==> mergeMask == MaskAt(word)
        invariant sourceForm == NIL ==> skewWord == halftoneWord
        invariant WordState(a, t, source, halftoneWord, ys, base, start, word, prevWord, before, sourceBefore)
      {
        thisWord, skewWord := NextWord(word, halftoneWord, mergeMask, prevWord, thisWord, skewWord,
                                       a, t, source, ys, base, start, before, sourceBefore);
        prevWord := thisWord;
        if word == nWords - 1 {
          mergeMask := mask2;
        } else {
          mergeMask := ALL_ONES;
        }
        word := word + 1;
      }
    }

    /** The halftone pattern held in memory. */
    ghost function HeldHalftone(): (pattern: Halftone)
      reads this`halftoneBits, halftoneBits
      requires halftoneForm != NIL ==> 16 <= halftoneBits.Length
      ensures pattern.Halftone? ==> 16 <= |pattern.bits|
    {
      if halftoneForm == NIL then NoHalftone else Halftone(halftoneBits[..])
    }

    /** The destination row at step i of the vertical loop. */
    ghost function RowAt(a: Area, i: int): int
      reads this`vDir
    {
      if vDir == 1 then a.dy + i - 1 else a.dy + a.h - i
    }

    /** The destination bitmap before step i of the vertical loop. */
    ghost predicate BlockIs(a: Area, source: Source, halftone: Halftone, i: int, before: seq<Word>, now: seq<Word>)
      reads this`hDir, this`vDir, this`destRaster
      requires halftone.Halftone? ==> 16 <= |halftone.bits|
    {
      RowsCopied(a, hDir == -1, combinationRule, source, halftone, destRaster, destFormHeight,
                 if vDir == 1 then a.dy else a.dy + a.h - i + 1, if vDir == 1 then a.dy + i - 1 else a.dy + a.h,
                 before, now)
    }

    lemma ReadyForRow(a: Area, t: int, source: Source, i: int)
      requires Planned(a, t, source) && 1 <= i <= a.h
      requires destIndex == RowIndex(RowAt(a, i), destRaster) + ColumnAt(a, 1)
      ensures RowReady(a, source, RowIndex(RowAt(a, i), destRaster))
    {
      hide PlannedSource, MaskFits;
      RowFits(destRaster, RowAt(a, i), destFormHeight);
    }

    lemma SourceRowIntact(a: Area, t: int, source: Source, halftone: Halftone, i: int, ys: int, base: int,
                          start: int, before: seq<Word>)
      requires sourceForm != NIL && Planned(a, t, source) && 1 <= i <= a.h && ys == RowAt(a, i) - a.dy + a.sy
      requires base == RowIndex(RowAt(a, i), destRaster) && start == RowIndex(ys, sourceRaster)
      requires halftone.Halftone? ==> 16 <= |halftone.bits|
      requires BlockIs(a, source, halftone, i, before, destBits[..])
      requires if sourceBits == destBits then before == source.bits && destBits.Length == destBitsWordLength
               else sourceBits[..] == source.bits
      ensures 0 <= ys && 0 <= start && start + sourceRaster <= |source.bits|
      ensures RowIntact(source, start, sourceBits[..])
      ensures sourceBits == destBits ==> ReadFirst(hDir, t, sourceRaster, base, start)
    {
      hide MaskFits, Aligned, StartsAligned, RowsCopied;
      RowFits(sourceRaster, ys, sourceFormHeight);
      if sourceBits == destBits {
        ReadFirstRow(hDir, t, sourceRaster, RowAt(a, i), ys);
        assert source.raster * destFormHeight == |source.bits| && ys < destFormHeight;
        RowKept(a, hDir == -1, combinationRule, source, halftone, destFormHeight,
                if vDir == 1 then a.dy else a.dy + a.h - i + 1, if vDir == 1 then a.dy + i - 1 else a.dy + a.h,
                ys, destBits[..]);
      }
    }

    /** At the start of row i the indices and the source row are in place. */
    lemma SourceReadyForRow(a: Area, t: int, source: Source, ys: int, base: int, start: int)
      requires sourceForm != NIL && PlannedSource(a, t, source) && Held() && (hDir == 1 || hDir == -1)
      requires 0 < a.w && 0 <= a.dx
      requires 0 <= ys && 0 <= start == RowIndex(ys, sourceRaster) && start + sourceRaster <= |source.bits|
      requires RowIntact(source, start, sourceBits[..])
      requires sourceBits == destBits ==> ReadFirst(hDir, t, sourceRaster, base, start)
      requires sourceIndex + (if preload then hDir else 0) == start + ColumnAt(a, 1) + t
      ensures SourceReady(a, t, source, ys, base, start)
    {
      hide Aligned, ReadFirst;
      assert preload ==> 0 <= ColumnAt(a, 1) + t - hDir < sourceRaster;
    }

    lemma BeginRow(a: Area, t: int, source: Source, halftone: Halftone, i: int, ys: int, base: int, start: int,
                   before: seq<Word>)
      requires Planned(a, t, source) && Held() && 1 <= i <= a.h && ys == RowAt(a, i) - a.dy + a.sy
      requires halftone.Halftone? ==> 16 <= |halftone.bits|
      requires BlockIs(a, source, halftone, i, before, destBits[..])
      requires base == RowIndex(RowAt(a, i), destRaster) && destIndex == base + ColumnAt(a, 1)
      requires sourceForm != NIL ==>
                 && start == RowIndex(ys, sourceRaster)
                 && sourceIndex + (if preload then hDir else 0) == start + ColumnAt(a, 1) + t
                 && if sourceBits == destBits then before == source.bits else sourceBits[..] == source.bits
      ensures RowReady(a, source, base) && 0 <= a.FirstColumn() <= a.LastColumn() < destRaster
      ensures sourceForm != NIL ==> SourceReady(a, t, source, ys, base, start)
    {
      hide MaskFits, RowIntact, RowsCopied, SourceReady, ReadFirst, PlannedSource, Area.FirstColumn, Area.LastColumn;
      ReadyForRow(a, t, source, i);
      if sourceForm != NIL {
        SourceRowIntact(a, t, source, halftone, i, ys, base, start, before);
        SourceReadyForRow(a, t, source, ys, base, start);
      }
    }

    lemma RowDone(a: Area, source: Source, halftone: Halftone, i: int, before: seq<Word>, mid: seq<Word>,
                  after: seq<Word>)
      requires halftone.Halftone? ==> 16 <= |halftone.bits|
      requires 1 <= i <= a.h && 0 <= a.FirstColumn() <= a.LastColumn() < destRaster
      requires BlockIs(a, source, halftone, i, before, mid)
      requires RowPart(a, hDir == -1, combinationRule, source, HalftoneRow(halftone, RowAt(a, i)),
                       RowAt(a, i) - a.dy + a.sy, RowIndex(RowAt(a, i), destRaster) + a.FirstColumn(), 0,
                       a.Columns(), mid, after)
      ensures BlockIs(a, source, halftone, i + 1, before, after)
    {
      RowsGrow(a, hDir == -1, combinationRule, source, halftone, destRaster, destFormHeight,
               if vDir == 1 then a.dy else a.dy + a.h - i + 1, if vDir == 1 then a.dy + i - 1 else a.dy + a.h,
               if vDir == 1 then a.dy else a.dy + a.h - i, if vDir == 1 then a.dy + i else a.dy + a.h,
               RowAt(a, i), before, mid, after);
    }

    lemma NextRow(a: Area, i: int)
      requires vDir == 1 || vDir == -1
      ensures RowIndex(RowAt(a, i + 1), destRaster) == RowIndex(RowAt(a, i), destRaster) + Along(vDir, destRaster)
      ensures RowIndex(RowAt(a, i + 1) - a.dy + a.sy, sourceRaster)
                == RowIndex(RowAt(a, i) - a.dy + a.sy, sourceRaster) + Along(vDir, sourceRaster)
    {
    }

    lemma LoopFacts(a: Area, t: int, source: Source)
      requires Planned(a, t, source) && Held()
      ensures 1 <= h == a.h && nWords == a.Columns() && (hDir == 1 || hDir == -1) && (vDir == 1 || vDir == -1)
      ensures destBits.Length == destRaster * destFormHeight && 0 <= destRaster
      ensures halftoneForm != NIL ==> 16 <= halftoneBits.Length && halftoneBits != destBits
      ensures destDelta == Along(vDir, destRaster) - Along(hDir, nWords)
      ensures sourceForm != NIL ==>
                && source.Source?
                && sourceDelta == Along(vDir, sourceRaster) - Along(hDir, nWords + if preload then 1 else 0)
    {
    }

    /** What holds before step i of the vertical loop. */
    ghost predicate LoopState(a: Area, t: int, source: Source, halftone: Halftone, i: int, before: seq<Word>)
      reads this`hDir, this`vDir, this`destRaster, this`destBits, this`dy, this`halftoneBits, this`preload
      reads this`sourceBits, this`sourceRaster, this`sourceIndex, this`destIndex, destBits, sourceBits, halftoneBits
      requires halftone.Halftone? ==> 16 <= |halftone.bits|
    {
      && (halftoneForm == NIL ==> halftone.NoHalftone?)
      && (halftoneForm != NIL ==> dy == RowAt(a, i) && halftone == Halftone(halftoneBits[..]))
      && destIndex == RowIndex(RowAt(a, i), destRaster) + ColumnAt(a, 1)
      && (sourceForm != NIL ==>
            && source.Source?
            && sourceIndex + (if preload then hDir else 0)
                 == RowIndex(RowAt(a, i) - a.dy + a.sy, sourceRaster) + ColumnAt(a, 1) + t
            && if sourceBits == destBits then before == source.bits else sourceBits[..] == source.bits)
      && BlockIs(a, source, halftone, i, before, destBits[..])
    }

    /** The halftone word for row y; the row number moves on only if there is a halftone. */
    method FetchHalftone(ghost halftone: Halftone, ghost y: int) returns (halftoneWord: Word)
      requires halftone.Halftone? ==> 16 <= |halftone.bits|
      requires halftoneForm == NIL ==> halftone.NoHalftone?
      requires halftoneForm != NIL ==> 16 <= halftoneBits.Length && dy == y && halftone == Halftone(halftoneBits[..])
      modifies this`dy
      ensures halftoneWord == HalftoneRow(halftone, y) && (halftoneForm != NIL ==> dy == y + vDir)
    {
      if halftoneForm != NIL {
        halftoneWord := halftoneBits[dy % 16];
        dy := dy + vDir;
      } else {
        halftoneWord := ALL_ONES;
      }
    }

    /** On to the next row. */
    method NextIndices(ghost a: Area, ghost t: int, ghost source: Source, ghost i: int)
      requires Planned(a, t, source) && Held()
      requires destIndex == RowIndex(RowAt(a, i), destRaster) + ColumnAt(a, nWords + 1)
      requires sourceForm != NIL ==>
                 sourceIndex == RowIndex(RowAt(a, i) - a.dy + a.sy, sourceRaster) + ColumnAt(a, nWords + 1) + t
      modifies this`sourceIndex, this`destIndex
      ensures destIndex == RowIndex(RowAt(a, i + 1), destRaster) + ColumnAt(a, 1)
      ensures sourceForm != NIL ==>
                sourceIndex + (if preload then hDir else 0)
                  == RowIndex(RowAt(a, i + 1) - a.dy + a.sy, sourceRaster) + ColumnAt(a, 1) + t
    {
      hide RowIndex, Planned, Held;
      LoopFacts(a, t, source);
      NextRow(a, i);
      sourceIndex := sourceIndex + sourceDelta;
      destIndex := destIndex + destDelta;
    }

    /** One step of the vertical loop. */
    method NextLine(thisWord0: Word, ghost a: Area, ghost t: int, ghost source: Source, ghost halftone: Halftone,
                    ghost i: int, ghost before: seq<Word>)
      returns (thisWord: Word)
      requires Planned(a, t, source) && Held() && 1 <= i <= a.h
      requires halftone.Halftone? ==> 16 <= |halftone.bits|
      requires LoopState(a, t, source, halftone, i, before)
      modifies this`dy, this`sourceIndex, this`destIndex, destBits
      ensures LoopState(a, t, source, halftone, i + 1, before)
    {
      hide RowIndex, Planned, Held, RowsCopied, BlockIs, RowPart, RowReady, SourceReady, Area.FirstColumn,
           Area.LastColumn, HalftoneRow;
      LoopFacts(a, t, source);
      ghost var y := RowAt(a, i);
      ghost var ys := y - a.dy + a.sy;
      ghost var base, start := RowIndex(y, destRaster), RowIndex(ys, sourceRaster);
      var halftoneWord := FetchHalftone(halftone, y);
      BeginRow(a, t, source, halftone, i, ys, base, start, before);
      ghost var mid := destBits[..];
      thisWord := CopyRow(halftoneWord, thisWord0, a, t, source, ys, base, start);
      RowDone(a, source, halftone, i, before, mid, destBits[..]);
      NextIndices(a, t, source, i);
    }

    /** The vertical loop: the rows of the area, top to bottom or bottom to top. */
    method CopyLoop(ghost a: Area, ghost t: int, ghost source: Source)
      requires Planned(a, t, source) && Held()
      requires dy == RowAt(a, 1) && destIndex == RowIndex(dy, destRaster) + ColumnAt(a, 1)
      requires sourceForm != NIL ==>
                 && source.bits == sourceBits[..]
                 && sourceIndex + (if preload then hDir else 0)
                      == RowIndex(RowAt(a, 1) - a.dy + a.sy, sourceRaster) + ColumnAt(a, 1) + t
      modifies this`dy, this`sourceIndex, this`destIndex, destBits
      ensures RowsCopied(a, hDir == -1, combinationRule, source, old(HeldHalftone()), destRaster, destFormHeight,
                         a.dy, a.dy + a.h, old(destBits[..]), destBits[..])
    {
      hide RowIndex, Planned, Held, RowsCopied, RowPart, Area.FirstColumn, Area.LastColumn;
      LoopFacts(a, t, source);
      ghost var before, halftone := destBits[..], HeldHalftone();
      var thisWord := ZERO;
      NoRowsCopied(a, hDir == -1, combinationRule, source, halftone, destRaster, destFormHeight,
                   if vDir == 1 then a.dy else a.dy + a.h, before);
      var i := 1;
      while i <= h
        invariant 1 <= i <= h + 1
        invariant LoopState(a, t, source, halftone, i, before)
      {
        thisWord := NextLine(thisWord, a, t, source, halftone, i, before);
        i := i + 1;
      }
    }

    /** Both bitmaps have the number of words their form's size asks for. */
    ghost predicate BitmapsFit()
      requires Valid()
    {
      && memory.forms[destForm].bits.Length == Raster.Raster(destFormWidth) * destFormHeight
      && (sourceForm != NIL ==>
            memory.forms[sourceForm].bits.Length == Raster.Raster(sourceFormWidth) * sourceFormHeight)
    }

    function FormWordCount(width: int, height: int): (count: int)
      requires 0 <= width
      ensures count == Raster.Raster(width) * height
    {
      (width + 15) / 16 * height
    }

    lemma EachMaskFits(a: Area, start1: Word, start2: Word, n: int)
      requires (hDir == 1 || hDir == -1) && 0 <= a.dx && 0 < a.w && nWords == a.Columns() && 1 <= n <= nWords
      requires EdgeMasks(a, start1, start2)
      requires mask1 == (if hDir == -1 then start2 else start1) && mask2 == if hDir == -1 then start1 else start2
      ensures MaskFits(a, n)
    {
      hide EdgeMasks, Written;
      MasksFit(a, hDir == -1, start1, start2, n);
    }

    /** Set-up establishes what the loops rely on. */
    lemma SetUp(a: Area, source: Source, start1: Word, start2: Word)
      requires combinationRule < 16
      requires (hDir == 1 || hDir == -1) && (vDir == 1 || vDir == -1)
      requires destRaster == Raster.Raster(destFormWidth) && destBitsWordLength == destRaster * destFormHeight
      requires halftoneForm != NIL ==> halftoneBits != destBits
      requires 0 < a.w && 0 <= a.dx && a.dx + a.w <= destFormWidth
      requires 0 < a.h && 0 <= a.dy && a.dy + a.h <= destFormHeight
      requires nWords == a.Columns() && h == a.h
      requires EdgeMasks(a, start1, start2)
      requires mask1 == (if hDir == -1 then start2 else start1) && mask2 == if hDir == -1 then start1 else start2
      requires destDelta == Along(vDir, destRaster) - Along(hDir, nWords)
      requires sourceForm != NIL ==>
                 sourceDelta == Along(vDir, sourceRaster) - Along(hDir, nWords + if preload then 1 else 0)
      requires sourceForm == NIL <==> source == NoSource
      requires sourceForm == NIL ==> !preload
      requires sourceForm != NIL ==> PlannedSource(a, Lead(a, hDir), source)
      ensures Planned(a, Lead(a, hDir), source)
    {
      hide PlannedSource, EdgeMasks, BitBlt.MaskFits;
      forall n | 1 <= n <= nWords
        ensures MaskFits(a, n)
      {
        EachMaskFits(a, start1, start2, n);
      }
    }

    lemma SetUpSource(a: Area, source: Source)
      requires source.Source? && 0 < a.w
      requires sourceRaster == Raster.Raster(sourceFormWidth) && sourceBitsWordLength == sourceRaster * sourceFormHeight
      requires source.raster == sourceRaster && |source.bits| == sourceBitsWordLength
      requires 0 <= a.sx && a.sx + a.w <= sourceFormWidth && 0 <= a.sy && a.sy + a.h <= sourceFormHeight
      requires sourceBits == destBits ==>
                 sourceForm == destForm && sourceRaster == destRaster && sourceFormHeight == destFormHeight
      requires vDir == (if sourceForm == destForm && a.dy > a.sy then -1 else 1)
      requires hDir == (if sourceForm == destForm && a.dy == a.sy && a.dx > a.sx then -1 else 1)
      requires skew == (a.sx - a.dx) % 16
      requires var mask := if skew == 0 then ZERO else RightMask(16 - skew);
               skewMask == if hDir == 1 then mask else Not(mask)
      requires preload == ((skew != 0 && skew <= (if hDir == 1 then a.sx else a.sx + a.w - 1) % 16) != (hDir < 0))
      ensures PlannedSource(a, Lead(a, hDir), source)
    {
      SkewFits(a, hDir, skewMask);
      PreloadFits(a, hDir, preload);
      hide Aligned, StartsAligned;
    }

    /** The bitmaps of the forms are at hand, and their size is right. */
    ghost predicate Loaded(a: Area, source: Source)
      reads this`destBits, this`destRaster, this`destBitsWordLength, this`halftoneBits
      reads this`sourceBits, this`sourceRaster, this`sourceBitsWordLength
    {
      && combinationRule < 16 && destForm != NIL
      && destRaster == Raster.Raster(destFormWidth)
      && destBitsWordLength == destBits.Length == destRaster * destFormHeight
      && (halftoneForm != NIL ==> halftoneBits != destBits && 16 <= halftoneBits.Length)
      && 0 < a.w && 0 <= a.dx && a.dx + a.w <= destFormWidth && 0 < a.h && 0 <= a.dy && a.dy + a.h <= destFormHeight
      && (sourceForm == NIL <==> source == NoSource)
      && (sourceForm != NIL ==>
            && source.Source? && source.raster == sourceRaster && |source.bits| == sourceBitsWordLength
            && sourceRaster == Raster.Raster(sourceFormWidth)
            && sourceBitsWordLength == sourceBits.Length == sourceRaster * sourceFormHeight
            && 0 <= a.sx && a.sx + a.w <= sourceFormWidth && 0 <= a.sy && a.sy + a.h <= sourceFormHeight
            && (sourceBits == destBits ==>
                  sourceForm == destForm && sourceRaster == destRaster && sourceFormHeight == destFormHeight))
    }

    /** Directions and offsets: afterwards everything is ready for the loops. */
    method PlanLoops(ghost a: Area, ghost source: Source)
      requires a == TheArea() && Loaded(a, source)
      requires skew == (sx - dx) % 16 && skewMask == if skew == 0 then ZERO else RightMask(16 - skew)
      requires nWords == a.Columns() && EdgeMasks(a, mask1, mask2)
      modifies this`hDir, this`vDir, this`sx, this`sy, this`dx, this`dy, this`skewMask, this`mask1, this`mask2
      modifies this`preload, this`sourceIndex, this`destIndex, this`sourceDelta, this`destDelta
      ensures hDir == if Leftward(a, sourceForm == destForm) then -1 else 1
      ensures Planned(a, Lead(a, hDir), source)
      ensures dy == RowAt(a, 1) && destIndex == RowIndex(dy, destRaster) + ColumnAt(a, 1)
      ensures sourceForm != NIL ==>
                sourceIndex + (if preload then hDir else 0)
                  == RowIndex(RowAt(a, 1) - a.dy + a.sy, sourceRaster) + ColumnAt(a, 1) + Lead(a, hDir)
    {
      hide EdgeMasks, PlannedSource, Planned, Lead, RowIndex, Loaded;
      ghost var start1, start2 := mask1, mask2;
      CheckOverlap();
      CalculateOffsets();
      PlanIsReady(a, source, start1, start2);
    }

    lemma PlanIsReady(a: Area, source: Source, start1: Word, start2: Word)
      requires Loaded(a, source) && EdgeMasks(a, start1, start2) && w == a.w && h == a.h && nWords == a.Columns()
      requires vDir == if sourceForm == destForm && a.dy > a.sy then -1 else 1
      requires hDir == if Leftward(a, sourceForm == destForm) then -1 else 1
      requires mask1 == (if hDir == -1 then start2 else start1) && mask2 == if hDir == -1 then start1 else start2
      requires skew == (a.sx - a.dx) % 16
      requires var mask := if skew == 0 then ZERO else RightMask(16 - skew);
               skewMask == if hDir == -1 then Not(mask) else mask
      requires sy == a.sy + (if vDir == -1 then h - 1 else 0) && dy == a.dy + (if vDir == -1 then h - 1 else 0)
      requires sx == a.sx + (if hDir == -1 then w - 1 else 0) && dx == a.dx + (if hDir == -1 then w - 1 else 0)
      requires preload == ((sourceForm != NIL && skew != 0 && skew <= sx % 16) != (hDir < 0))
      requires sourceIndex == RowIndex(sy, sourceRaster) + sx / 16 && destIndex == RowIndex(dy, destRaster) + dx / 16
      requires sourceDelta == Along(vDir, sourceRaster) - Along(hDir, nWords + if preload then 1 else 0)
      requires destDelta == Along(vDir, destRaster) - Along(hDir, nWords)
      ensures Planned(a, Lead(a, hDir), source)
      ensures dy == RowAt(a, 1) && destIndex == RowIndex(dy, destRaster) + ColumnAt(a, 1)
      ensures sourceForm != NIL ==>
                sourceIndex + (if preload then hDir else 0)
                  == RowIndex(RowAt(a, 1) - a.dy + a.sy, sourceRaster) + ColumnAt(a, 1) + Lead(a, hDir)
    {
      hide EdgeMasks, PlannedSource, Lead, RowIndex;
      if sourceForm != NIL {
        SetUpSource(a, source);
        PreloadFits(a, hDir, preload);
      }
      assert sourceForm == NIL ==> hDir == 1 && !preload;
      SetUp(a, source, start1, start2);
    }

    /** The plan for an area is one for all that is drawn. */
    lemma DrawnIsPlanned(a: Area, t: int, source: Source)
      requires Planned(a, t, source) && (hDir == -1 ==> source.Source?)
      ensures Planned(Drawn(a, hDir == -1), t, source)
      ensures ColumnAt(Drawn(a, hDir == -1), 1) == ColumnAt(a, 1) && RowAt(Drawn(a, hDir == -1), 1) == RowAt(a, 1)
    {
      hide Aligned, StartsAligned, MaskFits, Drawn, Written;
      var d := Drawn(a, hDir == -1);
      assert hDir == -1 ==> PlannedSource(a, t, source);
      DrawnInside(a, hDir == -1);
      forall n | 1 <= n <= nWords
        ensures MaskFits(d, n)
      {
        DrawnMask(a, n);
      }
      if source.Source? {
        DrawnAligned(a, hDir == -1, skew, skewMask, hDir, t);
        DrawnStarts(a, hDir, preload, t);
      }
    }

    lemma DrawnMask(a: Area, n: int)
      requires MaskFits(a, n) && 0 <= a.dx && 0 < a.w && (hDir == -1 ==> 0 <= a.sx)
      ensures MaskFits(Drawn(a, hDir == -1), n)
    {
      hide Written, Drawn;
      DrawnInside(a, hDir == -1);
      forall k | 0 <= k < 16
        ensures MaskAt(n)[k] == Written(Drawn(a, hDir == -1), hDir == -1, 16 * ColumnAt(a, n) + k)
      {
        DrawnWritten(a, hDir == -1, 16 * ColumnAt(a, n) + k);
      }
    }

    /** Directions, offsets and the loops, for an area that is not empty. */
    method CopyArea(ghost a: Area, ghost source: Source)
      requires a == TheArea() && Loaded(a, source)
      requires sourceForm != NIL ==> source.bits == sourceBits[..]
      requires skew == (sx - dx) % 16 && skewMask == if skew == 0 then ZERO else RightMask(16 - skew)
      requires nWords == a.Columns() && EdgeMasks(a, mask1, mask2)
      modifies this`hDir, this`vDir, this`sx, this`sy, this`dx, this`dy, this`skewMask, this`mask1, this`mask2
      modifies this`preload, this`sourceIndex, this`destIndex, this`sourceDelta, this`destDelta, destBits
      ensures Outcome(Drawn(a, Leftward(a, sourceForm == destForm)), Leftward(a, sourceForm == destForm),
                      combinationRule, source, old(HeldHalftone()), destRaster, destFormHeight,
                      old(destBits[..]), destBits[..])
    {
      hide EdgeMasks, Planned, Outcome, RowsCopied, RowIndex, Drawn;
      PlanLoops(a, source);
      DrawnIsPlanned(a, Lead(a, hDir), source);
      DrawnInside(a, hDir == -1);
      ghost var before, drawn := destBits[..], Drawn(a, hDir == -1);
      CopyLoop(drawn, Lead(a, hDir), source);
      RowsAreOutcome(drawn, hDir == -1, combinationRule, source, old(HeldHalftone()), destRaster, destFormHeight,
                     before, destBits[..]);
    }

    lemma NowLoaded(a: Area, source: Source)
      requires Valid() && BitmapsFit() && source == TheSource() && 0 < a.w && 0 < a.h
      requires 0 <= a.dx && a.dx + a.w <= destFormWidth && 0 <= a.dy && a.dy + a.h <= destFormHeight
      requires source.Source? ==>
                 0 <= a.sx && a.sx + a.w <= source.width && 0 <= a.sy && a.sy + a.h <= source.height
      requires destBits == memory.forms[destForm].bits && destRaster == Raster.Raster(destFormWidth)
      requires destBitsWordLength == destBits.Length
      requires sourceForm != NIL ==>
                 && sourceBits == memory.forms[sourceForm].bits && sourceRaster == Raster.Raster(sourceFormWidth)
                 && sourceBitsWordLength == sourceBits.Length
      requires halftoneForm != NIL ==> halftoneBits == memory.forms[halftoneForm].bits
      ensures Loaded(a, source)
    {
    }

    /** The transfer of a clipped area that is not empty; refused if a bitmap is
        not of the size its form calls for. */
    method CopyClipped(ghost a: Area, ghost source: Source) returns (ok: bool)
      requires Valid() && a == TheArea() && source == TheSource() && 0 < a.w && 0 < a.h
      requires 0 <= a.dx && a.dx + a.w <= destFormWidth && 0 <= a.dy && a.dy + a.h <= destFormHeight
      requires source.Source? ==>
                 0 <= a.sx && a.sx + a.w <= source.width && 0 <= a.sy && a.sy + a.h <= source.height
      modifies this`destBits, this`destBitsWordLength, this`destRaster
      modifies this`sourceBits, this`sourceBitsWordLength, this`sourceRaster, this`halftoneBits
      modifies this`skew, this`mask1, this`mask2, this`skewMask, this`nWords
      modifies this`hDir, this`vDir, this`sx, this`sy, this`dx, this`dy
      modifies this`preload, this`sourceIndex, this`destIndex, this`sourceDelta, this`destDelta
      modifies memory.forms[destForm].bits
      ensures ok <==> BitmapsFit()
      ensures !ok ==> memory.forms[destForm].bits[..] == old(memory.forms[destForm].bits[..])
      ensures ok ==>
                Outcome(Drawn(a, Leftward(a, sourceForm == destForm)), Leftward(a, sourceForm == destForm),
                        combinationRule, source, old(TheHalftone()), Raster.Raster(destFormWidth), destFormHeight,
                        old(memory.forms[destForm].bits[..]), memory.forms[destForm].bits[..])
    {
      hide Outcome, EdgeMasks, AreaOf, Leftward, Loaded, Raster.Raster, Drawn;
      FetchBitmaps();
      ComputeMasks();
      // check if source or dest is "bad"
      if sourceForm != NIL && FormWordCount(sourceFormWidth, sourceFormHeight) != sourceBitsWordLength {
        return false;
      }
      if FormWordCount(destFormWidth, destFormHeight) != destBitsWordLength {
        return false;
      }
      NowLoaded(a, source);
      CopyArea(a, source);
      return true;
    }

    /** Clipping gives the area of the job. */
    method ClipToArea(ghost job: Job, ghost source: Source) returns (ghost a: Area)
      requires Valid() && job == TheJob() && source == TheSource()
      modifies this`clipX, this`clipY, this`clipWidth, this`clipHeight
      modifies this`sx, this`sy, this`dx, this`dy, this`w, this`h
      ensures a == TheArea() == AreaOf(job, source)
      ensures 0 <= a.dx && a.dx + a.w <= destFormWidth && 0 <= a.dy && a.dy + a.h <= destFormHeight
      ensures source.Source? ==>
                0 <= a.sx && a.sx + a.w <= source.width && 0 <= a.sy && a.sy + a.h <= source.height
    {
      hide AreaOf;
      ClipRange();
      a := TheArea();
      AreaBySize(job, source, Extent());
      AreaInside(job, source);
    }

    /** The area reported to the display. */
    method Report()
      modifies this`updatedX, this`updatedY, this`updatedWidth, this`updatedHeight
      ensures (updatedX, updatedY, updatedWidth, updatedHeight)
                == if w > 0 && h > 0 then (dx, dy, w, h) else (0, 0, 0, 0)
    {
      if w > 0 && h > 0 {
        updatedX := dx;
        updatedY := dy;
        updatedWidth := w;
        updatedHeight := h;
      } else {
        updatedX := 0;
        updatedY := 0;
        updatedWidth := 0;
        updatedHeight := 0;
      }
    }

    /** Clip, then copy: what happens to every bit, the defective case included. */
    method ClipAndCopy() returns (ok: bool)
      requires Valid()
      modifies this`clipX, this`clipY, this`clipWidth, this`clipHeight
      modifies this`sx, this`sy, this`dx, this`dy, this`w, this`h
      modifies this`updatedX, this`updatedY, this`updatedWidth, this`updatedHeight
      modifies this`destBits, this`destBitsWordLength, this`destRaster
      modifies this`sourceBits, this`sourceBitsWordLength, this`sourceRaster, this`halftoneBits
      modifies this`skew, this`mask1, this`mask2, this`skewMask, this`nWords
      modifies this`hDir, this`vDir, this`preload, this`sourceIndex, this`destIndex, this`sourceDelta, this`destDelta
      modifies memory.forms[destForm].bits
      ensures var a := AreaOf(old(TheJob()), old(TheSource()));
              ok <==> a.w <= 0 || a.h <= 0 || BitmapsFit()
      // a transfer that is empty or refused leaves the bitmap alone
      ensures var a := AreaOf(old(TheJob()), old(TheSource()));
              a.w <= 0 || a.h <= 0 || !BitmapsFit() ==>
                memory.forms[destForm].bits[..] == old(memory.forms[destForm].bits[..])
      // in every other case, what happens to each bit
      ensures var a := AreaOf(old(TheJob()), old(TheSource()));
              0 < a.w && 0 < a.h && BitmapsFit() ==>
                OutcomeOf(old(TheJob()), old(TheSource()), old(TheHalftone()), sourceForm == destForm,
                          old(memory.forms[destForm].bits[..]), memory.forms[destForm].bits[..])
      // the area reported to the display
      ensures var a := AreaOf(old(TheJob()), old(TheSource()));
              (updatedX, updatedY, updatedWidth, updatedHeight)
                == if 0 < a.w && 0 < a.h then (a.dx, a.dy, a.w, a.h) else (0, 0, 0, 0)
    {
      hide Outcome, AreaOf, Leftward, Raster.Raster, Drawn;
      ghost var source := TheSource();
      ghost var job := TheJob();
      ghost var a := ClipToArea(job, source);
      Report();
      if w > 0 && h > 0 {
        ok := CopyClipped(a, source);
      } else {
        ok := true;
      }
    }

    /** The transfer.  With bitmaps of the right size, every pixel of the clipped
        rectangle becomes the rule applied to the old source pixel (AND halftone)
        and the old destination pixel, and no other bit changes, however source
        and destination overlap; the one exception is OneWordRightward, where
        nothing is drawn, or, if the row ends with its word, pixels beside the
        rectangle are drawn over as well: the result is right exactly if the rule
        leaves all those pixels as they are. */
    method CopyBits() returns (ok: bool)
      requires Valid()
      modifies this`clipX, this`clipY, this`clipWidth, this`clipHeight
      modifies this`sx, this`sy, this`dx, this`dy, this`w, this`h
      modifies this`updatedX, this`updatedY, this`updatedWidth, this`updatedHeight
      modifies this`destBits, this`destBitsWordLength, this`destRaster
      modifies this`sourceBits, this`sourceBitsWordLength, this`sourceRaster, this`halftoneBits
      modifies this`skew, this`mask1, this`mask2, this`skewMask, this`nWords
      modifies this`hDir, this`vDir, this`preload, this`sourceIndex, this`destIndex, this`sourceDelta, this`destDelta
      modifies memory.forms[destForm].bits
      ensures var a := AreaOf(old(TheJob()), old(TheSource()));
              ok <==> a.w <= 0 || a.h <= 0 || BitmapsFit()
      ensures !ok ==> memory.forms[destForm].bits[..] == old(memory.forms[destForm].bits[..])
      ensures var a := AreaOf(old(TheJob()), old(TheSource()));
              (updatedX, updatedY, updatedWidth, updatedHeight)
                == if 0 < a.w && 0 < a.h then (a.dx, a.dy, a.w, a.h) else (0, 0, 0, 0)
      ensures var a := AreaOf(old(TheJob()), old(TheSource()));
              BitmapsFit() && !(0 < a.w && 0 < a.h && OneWordRightward(a, sourceForm == destForm)) ==>
                Rendered(old(TheJob()), old(TheSource()), old(TheHalftone()),
                         old(memory.forms[destForm].bits[..]), memory.forms[destForm].bits[..])
      ensures var a := AreaOf(old(TheJob()), old(TheSource()));
              BitmapsFit() && 0 < a.w && 0 < a.h && OneWordRightward(a, sourceForm == destForm) ==>
                (Rendered(old(TheJob()), old(TheSource()), old(TheHalftone()),
                          old(memory.forms[destForm].bits[..]), memory.forms[destForm].bits[..]) <==>
                 AllSpared(a, combinationRule, old(TheSource()), old(TheHalftone()), Raster.Raster(destFormWidth),
                           destFormHeight, old(memory.forms[destForm].bits[..]), memory.forms[destForm].bits[..]))
      ensures var a := AreaOf(old(TheJob()), old(TheSource()));
              BitmapsFit() && 0 < a.w && 0 < a.h && OneWordRightward(a, sourceForm == destForm)
              && combinationRule == 5 ==>
                Rendered(old(TheJob()), old(TheSource()), old(TheHalftone()),
                         old(memory.forms[destForm].bits[..]), memory.forms[destForm].bits[..])
      ensures var a := AreaOf(old(TheJob()), old(TheSource()));
              BitmapsFit() && 0 < a.w && 0 < a.h && OneWordRightward(a, sourceForm == destForm)
              && combinationRule == 10 ==>
                !Rendered(old(TheJob()), old(TheSource()), old(TheHalftone()),
                          old(memory.forms[destForm].bits[..]), memory.forms[destForm].bits[..])
      ensures var a := AreaOf(old(TheJob()), old(TheSource()));
              BitmapsFit() && 0 < a.w && 0 < a.h && OneWordRightward(a, sourceForm == destForm)
              && a.dx % 16 + a.w != 16 ==>
                memory.forms[destForm].bits[..] == old(memory.forms[destForm].bits[..])
    {
      hide OutcomeOf, AreaOf, Rendered, OneWordRightward, Raster.Raster, AllSpared;
      ghost var source, halftone, before := TheSource(), TheHalftone(), memory.forms[destForm].bits[..];
      ghost var job := TheJob();
      ghost var a := AreaOf(job, source);
      ok := ClipAndCopy();
      ghost var after := memory.forms[destForm].bits[..];
      if BitmapsFit() {
        if 0 < a.w && 0 < a.h {
          if OneWordRightward(a, sourceForm == destForm) {
            if a.dx % 16 + a.w != 16 {
              NothingDrawn(job, source, halftone, sourceForm == destForm, before, after);
            }
            OneWordCopied(job, source, halftone, sourceForm == destForm, before, after);
          } else {
            OutcomeIsRendered(job, source, halftone, sourceForm == destForm, before, after);
          }
        } else {
          NothingRendered(job, source, halftone, before);
        }
      }
    }
  }
}
