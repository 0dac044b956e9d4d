/** The 24 rows of the grid (`TIMES`). Times are counted in the source's minute unit
    (the constant `분`) from the start of the first slot; the formatted labels are not modelled. */
module TimeSlots {

  /** One row: the label shows `start~end`. */
  datatype Slot = Slot(start: int, end: int)

  /** The row list: 18 half-hour slots back to back from 0, then 6 slots of 50
      minutes on a 55-minute stride from where the first group ends (18 * 30). */
  function Times(): (r: seq<Slot>)
    ensures |r| == 24
    ensures forall k :: 0 <= k < 18 ==> r[k].end - r[k].start == 30
    ensures forall k :: 18 <= k < 24 ==> r[k].end - r[k].start == 50
    ensures r[0].start == 0
  {
    var day := seq(18, k => 0 + k * 30);
    var evening := seq(6, k => 18 * 30 + k * 55);
    seq(18, k requires 0 <= k < 18 => Slot(day[k], day[k] + 30)) +
    seq(6, k requires 0 <= k < 6 => Slot(evening[k], evening[k] + 50))
  }

  /** Where each slot starts, in closed form. */
  lemma SlotStart(k: int)
    requires 0 <= k < 24
    ensures Times()[k].start == if k < 18 then 30 * k else 540 + 55 * (k - 18)
  {
  }

  /** The half-hour slots leave no gap: each ends where the next begins. */
  lemma FirstGroupContiguous(k: int)
    requires 0 <= k < 17
    ensures Times()[k].end == Times()[k + 1].start
  {
  }

  /** The evening group starts exactly where the half-hour group ends, at 540. */
  lemma GroupsMeet()
    ensures Times()[17].end == Times()[18].start == 540
  {
  }

  /** Consecutive evening slots are 5 minutes apart (55 stride minus 50 length). */
  lemma SecondGroupGaps(k: int)
    requires 18 <= k < 23
    ensures Times()[k + 1].start - Times()[k].end == 5
  {
  }

  /** For every pair of rows, the earlier slot ends no later than the later one starts:
      starts increase strictly and no two slot intervals overlap. */
  lemma SlotsOrdered(i: int, j: int)
    requires 0 <= i < j < 24
    ensures Times()[i].start < Times()[i].end <= Times()[j].start < Times()[j].end
  {
  }

  /** The whole grid spans from 0 to 865 (14h25 in the source's unit of minutes). */
  lemma TimesSpan()
    ensures Times()[0].start == 0 && Times()[23].end == 865
  {
  }
}
