/** The case the raster engine gets wrong: rows of one word that are copied to the right
    within the same form. When it is right all the same. */
module OneWord {
  import opened Basics
  import opened Words
  import opened Raster

  /** The pixels that matter: those of the area, which are left alone, or, if the rows
      end with their word, those before it in that word, which are drawn over. */
  predicate AtStake(a: Area, x: int, y: int) {
    && a.dy <= y < a.dy + a.h
    && if a.dx % 16 + a.w == 16 then a.dx - a.dx % 16 <= x < a.dx else a.dx <= x < a.dx + a.w
  }

  /** The rule leaves the pixel as it is; for a pixel before the first of its source row,
      which gets what happens to be in the shifter, it was left as it is. */
  ghost predicate Spared(a: Area, rule: nat, source: Source, halftone: Halftone, x: int, y: int,
                         before: bool, after: bool)
    requires halftone.Halftone? ==> 16 <= |halftone.bits|
  {
    if 0 <= x - a.dx + a.sx
    then
      RuleBit(rule, SourcePixel(source, x - a.dx + a.sx, y - a.dy + a.sy) && HalftoneRow(halftone, y)[x % 16], before)
      == before
    else after == before
  }

  ghost predicate AllSpared(a: Area, rule: nat, source: Source, halftone: Halftone, raster: int, height: int,
                            before: seq<Word>, after: seq<Word>)
    requires halftone.Halftone? ==> 16 <= |halftone.bits|
  {
    forall x, y | 0 <= x < 16 * raster && 0 <= y < height && AtStake(a, x, y) ::
      && (y + 1) * raster <= |before| && (y + 1) * raster <= |after|
      && Spared(a, rule, source, halftone, x, y, Pixel(before, raster, x, y), Pixel(after, raster, x, y))
  }

  /** What a pixel becomes, and what it should. */
  lemma PixelFate(job: Job, source: Source, halftone: Halftone, raster: int, x: int, y: int,
                  before: seq<Word>, after: seq<Word>)
    requires halftone.Halftone? ==> 16 <= |halftone.bits|
    requires 0 <= x < 16 * raster && 0 <= y && (y + 1) * raster <= |before| == |after|
    requires var a := AreaOf(job, source);
             && 0 <= a.dx && 0 <= a.sx && 0 < a.w && OneWordRightward(a, true)
             && PixelCopied(Drawn(a, true), true, job.rule, source, halftone, raster, x, y, before, after)
    ensures var a, old', new' := AreaOf(job, source), Pixel(before, raster, x, y), Pixel(after, raster, x, y);
            PixelRendered(job, source, halftone, x, y, old', new') <==>
            (AtStake(a, x, y) ==> Spared(a, job.rule, source, halftone, x, y, old', new'))
  {
    hide Pixel, SourcePixel, InColumns, InRows, RuleBit, FirstX, FirstY, LimitX, LimitY;
    ClippedColumns(job, source, x);
    ClippedRows(job, source, y);
  }

  /** In this case the copy is right exactly if every pixel that matters is spared. */
  lemma RightIfSpared(job: Job, source: Source, halftone: Halftone, before: seq<Word>, after: seq<Word>)
    requires halftone.Halftone? ==> 16 <= |halftone.bits|
    requires FitsDest(job, before) && source.Source? && 0 < AreaOf(job, source).w && 0 < AreaOf(job, source).h
    requires OneWordRightward(AreaOf(job, source), true) && OutcomeOf(job, source, halftone, true, before, after)
    ensures Rendered(job, source, halftone, before, after) <==>
            AllSpared(AreaOf(job, source), job.rule, source, halftone, Raster.Raster(job.destWidth), job.destHeight,
                      before, after)
  {
    hide AtStake, Spared, PixelCopied, PixelRendered, Pixel, AreaOf, Raster.Raster, Drawn;
    var a, raster := AreaOf(job, source), Raster.Raster(job.destWidth);
    AreaInside(job, source);
    forall x, y | 0 <= x < 16 * raster && 0 <= y < job.destHeight
      ensures (y + 1) * raster <= |before| == |after|
      ensures PixelRendered(job, source, halftone, x, y, Pixel(before, raster, x, y), Pixel(after, raster, x, y)) <==>
              (AtStake(a, x, y) ==>
                 Spared(a, job.rule, source, halftone, x, y, Pixel(before, raster, x, y), Pixel(after, raster, x, y)))
    {
      LeftwardIs(a);
      OutcomeAt(Drawn(a, true), true, job.rule, source, halftone, raster, job.destHeight, x, y, before, after);
      PixelFate(job, source, halftone, raster, x, y, before, after);
    }
  }

  lemma LeftwardIs(a: Area)
    requires OneWordRightward(a, true)
    ensures Leftward(a, true)
  {
  }

  // ---------- which rules are right whatever the bitmap holds ----------

  /** A pixel that matters, and has a source: the first of the area, or the one before it. */
  function Witness(a: Area): int { if a.dx % 16 + a.w == 16 then a.dx - 1 else a.dx }

  /** A bitmap with two chosen pixels in row y. */
  function TwoPixels(raster: nat, height: nat, y: int, x1: int, v1: bool, x2: int, v2: bool): (bits: seq<Word>)
    ensures |bits| == raster * height
  {
    ProductGrows(0, raster, height);
    seq<Word>(raster * height, i => TwoPixelWord(i - y * raster, x1, v1, x2, v2))
  }

  function TwoPixelWord(c: int, x1: int, v1: bool, x2: int, v2: bool): Word {
    seq(16, k => (c == x1 / 16 && k == x1 % 16 && v1) || (c == x2 / 16 && k == x2 % 16 && v2))
  }

  lemma TwoPixelsAre(raster: nat, height: nat, y: int, x1: int, v1: bool, x2: int, v2: bool)
    requires 0 <= y < height && 0 <= x1 < 16 * raster && 0 <= x2 < 16 * raster && x1 != x2
    ensures (y + 1) * raster <= raster * height
    ensures Pixel(TwoPixels(raster, height, y, x1, v1, x2, v2), raster, x1, y) == v1
    ensures Pixel(TwoPixels(raster, height, y, x1, v1, x2, v2), raster, x2, y) == v2
  {
    RowFits(raster, y, height);
    var bits := TwoPixels(raster, height, y, x1, v1, x2, v2);
    assert bits[y * raster + x1 / 16] == TwoPixelWord(x1 / 16, x1, v1, x2, v2);
    assert bits[y * raster + x2 / 16] == TwoPixelWord(x2 / 16, x1, v1, x2, v2);
  }

  /** Every rule but 5 changes some pixel. */
  lemma ChangingRule(rule: nat) returns (s: bool, d: bool)
    requires rule < 16 && rule != 5
    ensures RuleBit(rule, s, d) != d
  {
    if rule % 2 == 0 {
      return true, true;
    } else if rule / 2 % 2 == 1 {
      return true, false;
    } else if rule / 4 % 2 == 0 {
      return false, true;
    } else {
      return false, false;
    }
  }

  /** The destination form as source. */
  function SameForm(job: Job, bits: seq<Word>): Source {
    Source(bits, Raster.Raster(job.destWidth), job.destWidth, job.destHeight)
  }

  /** The rule that keeps the destination is right whatever the bitmap holds. */
  lemma KeepingIsRight(job: Job, source: Source, halftone: Halftone, before: seq<Word>, after: seq<Word>)
    requires halftone.Halftone? ==> 16 <= |halftone.bits|
    requires FitsDest(job, before) && source.Source? && 0 < AreaOf(job, source).w && 0 < AreaOf(job, source).h
    requires OneWordRightward(AreaOf(job, source), true) && OutcomeOf(job, source, halftone, true, before, after)
    requires job.rule == 5
    ensures Rendered(job, source, halftone, before, after)
  {
    hide Pixel, AreaOf, Raster.Raster, Drawn, SourcePixel;
    var a, raster := AreaOf(job, source), Raster.Raster(job.destWidth);
    forall x, y | 0 <= x < 16 * raster && 0 <= y < job.destHeight && AtStake(a, x, y)
      ensures (y + 1) * raster <= |before| && (y + 1) * raster <= |after|
      ensures Spared(a, job.rule, source, halftone, x, y, Pixel(before, raster, x, y), Pixel(after, raster, x, y))
    {
      LeftwardIs(a);
      OutcomeAt(Drawn(a, true), true, job.rule, source, halftone, raster, job.destHeight, x, y, before, after);
    }
    hide AtStake, Spared, OutcomeOf, OneWordRightward, Rendered;
    RightIfSpared(job, source, halftone, before, after);
  }

  /** Any other rule is wrong for some bitmap, if the pixel that shows it has a source and
      is not hidden by the halftone. */
  lemma WrongForSome(job: Job, halftone: Halftone) returns (bits: seq<Word>)
    requires halftone.Halftone? ==> 16 <= |halftone.bits|
    requires job.rule < 16 && job.rule != 5 && 0 <= job.destWidth && 0 <= job.destHeight
    requires var a := AreaOf(job, SameForm(job, []));
             && 0 < a.w && 0 < a.h && OneWordRightward(a, true)
             && 0 <= Witness(a) - a.dx + a.sx && HalftoneRow(halftone, a.dy)[Witness(a) % 16]
    ensures FitsDest(job, bits)
    ensures forall after | OutcomeOf(job, SameForm(job, bits), halftone, true, bits, after) ::
              !Rendered(job, SameForm(job, bits), halftone, bits, after)
  {
    hide Pixel, TwoPixels, AreaOf, Raster.Raster, Drawn, OneWordRightward, RuleBit, AllSpared, OutcomeOf, Rendered;
    var a, raster := AreaOf(job, SameForm(job, [])), Raster.Raster(job.destWidth);
    var from := Witness(a) - a.dx + a.sx;
    AreaInside(job, SameForm(job, []));
    WitnessInside(a, job.destWidth);
    var s, d := ChangingRule(job.rule);
    bits := TwoPixels(raster, job.destHeight, a.dy, from, s, Witness(a), d);
    TwoPixelsAre(raster, job.destHeight, a.dy, from, s, Witness(a), d);
    var source := SameForm(job, bits);
    AreaBySize(job, source, SameForm(job, []));
    forall after | OutcomeOf(job, source, halftone, true, bits, after)
      ensures !Rendered(job, source, halftone, bits, after)
    {
      RightIfSpared(job, source, halftone, bits, after);
      NotSpared(a, job.rule, source, halftone, job.destHeight, s, bits, after);
    }
  }

  lemma NotSpared(a: Area, rule: nat, source: Source, halftone: Halftone, height: int, s: bool,
                  before: seq<Word>, after: seq<Word>)
    requires halftone.Halftone? ==> 16 <= |halftone.bits|
    requires source.Source? && AtStake(a, Witness(a), a.dy) && a.sy == a.dy
    requires var x, from := Witness(a), Witness(a) - a.dx + a.sx;
             && 0 <= x < 16 * source.raster && 0 <= from < 16 * source.raster && 0 <= a.dy < height
             && (a.dy + 1) * source.raster <= |before| && source.bits == before
             && HalftoneRow(halftone, a.dy)[x % 16] && Pixel(before, source.raster, from, a.dy) == s
             && RuleBit(rule, s, Pixel(before, source.raster, x, a.dy)) != Pixel(before, source.raster, x, a.dy)
    ensures !AllSpared(a, rule, source, halftone, source.raster, height, before, after)
  {
    hide Pixel, RuleBit;
    if (a.dy + 1) * source.raster <= |after| {
      assert !Spared(a, rule, source, halftone, Witness(a), a.dy, Pixel(before, source.raster, Witness(a), a.dy),
                     Pixel(after, source.raster, Witness(a), a.dy));
    }
  }

  lemma WitnessInside(a: Area, width: int)
    requires 0 <= a.dx && 0 < a.w && 0 < a.h && a.dx + a.w <= width && OneWordRightward(a, true)
    ensures 0 <= Witness(a) < 16 * Raster.Raster(width) && AtStake(a, Witness(a), a.dy)
    ensures Witness(a) - a.dx + a.sx < Witness(a) && a.sy == a.dy && a.Columns() == 1
  {
  }

  /** Inverting the destination (rule 10) is wrong for every bitmap. */
  lemma InvertingIsWrong(job: Job, source: Source, halftone: Halftone, before: seq<Word>, after: seq<Word>)
    requires halftone.Halftone? ==> 16 <= |halftone.bits|
    requires FitsDest(job, before) && source.Source? && 0 < AreaOf(job, source).w && 0 < AreaOf(job, source).h
    requires OneWordRightward(AreaOf(job, source), true) && OutcomeOf(job, source, halftone, true, before, after)
    requires job.rule == 10
    ensures !Rendered(job, source, halftone, before, after)
  {
    hide Pixel, AreaOf, Raster.Raster, SourcePixel, Rendered;
    var a, raster := AreaOf(job, source), Raster.Raster(job.destWidth);
    AreaInside(job, source);
    WitnessInside(a, job.destWidth);
    LeftwardIs(a);
    OutcomeAt(Drawn(a, true), true, job.rule, source, halftone, raster, job.destHeight, Witness(a), a.dy,
              before, after);
    assert !Spared(a, job.rule, source, halftone, Witness(a), a.dy, Pixel(before, raster, Witness(a), a.dy),
                   Pixel(after, raster, Witness(a), a.dy));
    hide AtStake, Spared, OutcomeOf, OneWordRightward, PixelCopied;
    RightIfSpared(job, source, halftone, before, after);
  }

  lemma SameFormOnly(a: Area, sameForm: bool)
    requires OneWordRightward(a, sameForm)
    ensures sameForm
  {
  }

  /** All of that together. */
  lemma OneWordCopied(job: Job, source: Source, halftone: Halftone, sameForm: bool,
                      before: seq<Word>, after: seq<Word>)
    requires halftone.Halftone? ==> 16 <= |halftone.bits|
    requires FitsDest(job, before) && 0 < AreaOf(job, source).w && 0 < AreaOf(job, source).h
    requires OneWordRightward(AreaOf(job, source), sameForm) && (sameForm ==> source.Source?)
    requires OutcomeOf(job, source, halftone, sameForm, before, after)
    ensures Rendered(job, source, halftone, before, after) <==>
            AllSpared(AreaOf(job, source), job.rule, source, halftone, Raster.Raster(job.destWidth), job.destHeight,
                      before, after)
    ensures job.rule == 5 ==> Rendered(job, source, halftone, before, after)
    ensures job.rule == 10 ==> !Rendered(job, source, halftone, before, after)
  {
    SameFormOnly(AreaOf(job, source), sameForm);
    hide *;
    RightIfSpared(job, source, halftone, before, after);
    if job.rule == 5 {
      KeepingIsRight(job, source, halftone, before, after);
    }
    if job.rule == 10 {
      InvertingIsWrong(job, source, halftone, before, after);
    }
  }
}
