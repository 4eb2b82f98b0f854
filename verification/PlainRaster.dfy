/** The raster engine's specification in plain terms: bits of words at indices, and
    inequalities between the numbers of a job. */
module PlainRaster {
  import opened Basics
  import opened Words
  import opened OneWord
  import opened Raster

  /** A rule is the truth table its number spells: its bits of weight 1, 2, 4 and 8 answer
      (source, destination) = (1,1), (1,0), (0,1) and (0,0). */
  lemma RuleByNumber(rule: nat, source: Word, dest: Word, k: nat)
    requires rule < 16 && k < 16
    ensures Merge(rule, source, dest)[k] ==
            (rule / (if source[k] then (if dest[k] then 1 else 2) else if dest[k] then 4 else 8) % 2 == 1)
  {
    MergeIsTruthTable(rule, source, dest, k);
  }

  /** A drawn bitmap, bit by bit. The source bit is that of the source bitmap at the same
      offset, or black; the halftone bit is the one at the place modulo 16, or black. */
  lemma RenderedBits(job: Job, source: Source, halftone: Halftone, before: seq<Word>, after: seq<Word>, x: int, y: int)
    requires halftone.Halftone? ==> 16 <= |halftone.bits|
    requires FitsDest(job, before) && Rendered(job, source, halftone, before, after)
    requires source.Source? ==>
               && 0 <= source.width && 0 <= source.height && source.raster == (source.width + 15) / 16
               && |source.bits| == source.raster * source.height
    requires 0 <= x < (job.destWidth + 15) / 16 * 16 && 0 <= y < job.destHeight
    ensures var i, k := y * ((job.destWidth + 15) / 16) + x / 16, x % 16;
            var sx, sy := x - job.destX + job.sourceX, y - job.destY + job.sourceY;
            var inside := && job.destX <= x < job.destX + job.width && job.clipX <= x < job.clipX + job.clipWidth
                          && job.destY <= y < job.destY + job.height && job.clipY <= y < job.clipY + job.clipHeight
                          && x < job.destWidth
                          && (source.Source? ==> 0 <= sx < source.width && 0 <= sy < source.height);
            && 0 <= i < |before| == |after|
            && (inside && source.Source? ==> 0 <= sy * ((source.width + 15) / 16) + sx / 16 < |source.bits|)
            && after[i][k] ==
               if !inside then before[i][k]
               else
                 var s := source.Source? ==> source.bits[sy * ((source.width + 15) / 16) + sx / 16][sx % 16];
                 var h := halftone.Halftone? ==> halftone.bits[y % 16][x % 16];
                 job.rule / (if s && h then (if before[i][k] then 1 else 2) else if before[i][k] then 4 else 8) % 2 == 1
  {
    var raster := Raster.Raster(job.destWidth);
    RowFits(raster, y, job.destHeight);
    assert PixelRendered(job, source, halftone, x, y, Pixel(before, raster, x, y), Pixel(after, raster, x, y));
    var sx, sy := x - job.destX + job.sourceX, y - job.destY + job.sourceY;
    if source.Source? && 0 <= sx < source.width && 0 <= sy < source.height {
      RowFits(source.raster, sy, source.height);
    }
  }

  /** The clipped area, by the inequalities it has to satisfy; source and destination are
      apart by what the job says. */
  lemma AreaByInequalities(job: Job, source: Source, x: int, y: int)
    ensures var a, sx, sy := AreaOf(job, source), x - job.destX + job.sourceX, y - job.destY + job.sourceY;
            && (a.dx <= x < a.dx + a.w <==>
                  && job.destX <= x < job.destX + job.width && job.clipX <= x < job.clipX + job.clipWidth
                  && 0 <= x < job.destWidth && (source.Source? ==> 0 <= sx < source.width))
            && (a.dy <= y < a.dy + a.h <==>
                  && job.destY <= y < job.destY + job.height && job.clipY <= y < job.clipY + job.clipHeight
                  && 0 <= y < job.destHeight && (source.Source? ==> 0 <= sy < source.height))
            && a.sx - a.dx == job.sourceX - job.destX && a.sy - a.dy == job.sourceY - job.destY
  {
    ClippedColumns(job, source, x);
    ClippedRows(job, source, y);
  }

  /** The excepted case, and which pixels are at stake in it. */
  lemma ExceptionByInequalities(a: Area, sameForm: bool, x: int, y: int)
    ensures OneWordRightward(a, sameForm) <==>
            && sameForm && a.sy == a.dy && a.sx < a.dx
            && a.dx / 16 == (a.dx + a.w - 1) / 16 && a.w != 16
    ensures OneWordRightward(a, sameForm) && 0 < a.w ==>
              (AtStake(a, x, y) <==>
                 && a.dy <= y < a.dy + a.h
                 && if (a.dx + a.w) % 16 == 0 then x / 16 == a.dx / 16 && x < a.dx else a.dx <= x < a.dx + a.w)
  {
  }
}
