/** `getColor`: the background of a block, chosen by where its lecture first appears. */
module LectureColors {
  import opened Types
  import opened Seqs

  /** The six block backgrounds, in the order they are handed out. */
  const Colors: seq<string> := ["#fdd", "#ffd", "#dff", "#ddf", "#fdf", "#dfd"]

  /** `schedules.map(({ lecture }) => lecture.id)` */
  function LectureIds(schedules: seq<Schedule>): (r: seq<string>)
    ensures |r| == |schedules|
    ensures forall i :: 0 <= i < |schedules| ==> r[i] == schedules[i].lecture.id
  {
    seq(|schedules|, i requires 0 <= i < |schedules| => schedules[i].lecture.id)
  }

  /** `[...new Set(ids)]`: the distinct lecture ids in first-seen order. */
  function DistinctLectures(schedules: seq<Schedule>): (r: seq<string>)
    ensures NoDups(r)
    ensures forall id :: id in r <==> exists i :: 0 <= i < |schedules| && schedules[i].lecture.id == id
  {
    Dedup(LectureIds(schedules))
  }

  /** The position of the chosen colour in `Colors`. The id must belong to one of the
      schedules, as it does at the only call site (a block's own lecture). */
  function ColorIndex(schedules: seq<Schedule>, lectureId: string): (r: nat)
    requires lectureId in LectureIds(schedules)
    ensures r < |Colors|
  {
    IndexOf(DistinctLectures(schedules), lectureId) % |Colors|
  }

  /** `getColor(lectureId)` */
  function GetColor(schedules: seq<Schedule>, lectureId: string): (c: string)
    requires lectureId in LectureIds(schedules)
    ensures c in Colors
  {
    Colors[ColorIndex(schedules, lectureId)]
  }

  /** The six colours are pairwise different. */
  lemma ColorsDistinct()
    ensures NoDups(Colors)
  {
  }

  /** Two present lectures are shown alike exactly when their colour indices agree. */
  lemma SameColorIff(schedules: seq<Schedule>, a: string, b: string)
    requires a in LectureIds(schedules) && b in LectureIds(schedules)
    ensures GetColor(schedules, a) == GetColor(schedules, b) <==>
            ColorIndex(schedules, a) == ColorIndex(schedules, b)
  {
    ColorsDistinct();
  }

  /** The lecture that is `i`-th in first-seen order gets colour index `i mod 6`. */
  lemma ColorOfRank(schedules: seq<Schedule>, i: int)
    requires 0 <= i < |DistinctLectures(schedules)|
    ensures DistinctLectures(schedules)[i] in LectureIds(schedules)
    ensures ColorIndex(schedules, DistinctLectures(schedules)[i]) == i % 6
  {
    var d := DistinctLectures(schedules);
    assert d[i] in d;
    IndexOfNoDups(d, i);
  }

  /** Among the first six distinct lectures, different lectures get different colours. */
  lemma FirstSixDistinct(schedules: seq<Schedule>, i: int, j: int)
    requires 0 <= i < j < |DistinctLectures(schedules)| && j < 6
    ensures DistinctLectures(schedules)[i] != DistinctLectures(schedules)[j]
    ensures GetColor(schedules, DistinctLectures(schedules)[i]) !=
            GetColor(schedules, DistinctLectures(schedules)[j])
  {
    ColorOfRank(schedules, i);
    ColorOfRank(schedules, j);
    var d := DistinctLectures(schedules);
    SameColorIff(schedules, d[i], d[j]);
  }

  /** Adding a multiple of six to a rank does not change its colour index. Stated on
      its own so that `CyclicReuse` meets the fact as one step. */
  lemma ModSix(i: nat, m: nat)
    ensures (6 * m + i) % 6 == i % 6
  {
  }

  /** Colours are reused cyclically: the (6m+i)-th distinct lecture looks like the i-th. */
  lemma CyclicReuse(schedules: seq<Schedule>, i: nat, m: nat)
    requires 6 * m + i < |DistinctLectures(schedules)|
    ensures GetColor(schedules, DistinctLectures(schedules)[6 * m + i]) ==
            GetColor(schedules, DistinctLectures(schedules)[i])
  {
    var d, k := DistinctLectures(schedules), 6 * m + i;
    ColorOfRank(schedules, k);
    ColorOfRank(schedules, i);
    ModSix(i, m);
    assert ColorIndex(schedules, d[k]) == ColorIndex(schedules, d[i]);
    SameColorIff(schedules, d[k], d[i]);
  }

  /** A lecture's colour is the number of distinct lectures placed before its first
      schedule, mod 6: it depends only on the order of first appearances. */
  lemma ColorCountsEarlierLectures(schedules: seq<Schedule>, lectureId: string)
    requires lectureId in LectureIds(schedules)
    ensures var p := IndexOf(LectureIds(schedules), lectureId);
            ColorIndex(schedules, lectureId) == |Dedup(LectureIds(schedules)[..p])| % 6
  {
    var ids := LectureIds(schedules);
    DedupRank(ids, lectureId);
  }

  /** Appending a schedule never recolours a lecture already on the table. */
  lemma ColorStableOnAppend(schedules: seq<Schedule>, x: Schedule, lectureId: string)
    requires lectureId in LectureIds(schedules)
    ensures lectureId in LectureIds(schedules + [x])
    ensures GetColor(schedules + [x], lectureId) == GetColor(schedules, lectureId)
  {
    var ids := LectureIds(schedules);
    assert LectureIds(schedules + [x]) == ids + [x.lecture.id];
    DedupAppend(ids, x.lecture.id);
    if x.lecture.id !in ids {
      IndexOfAppend(Dedup(ids), x.lecture.id, lectureId);
    }
  }

  /** The backgrounds of the rendered blocks, one per schedule (`bg={getColor(...)}`). */
  function BlockColors(schedules: seq<Schedule>): (r: seq<string>)
    ensures |r| == |schedules|
    ensures forall i :: 0 <= i < |r| ==> r[i] in Colors
    ensures forall i, j ::
              0 <= i < |r| && 0 <= j < |r| && schedules[i].lecture.id == schedules[j].lecture.id
              ==> r[i] == r[j]
  {
    var ids := LectureIds(schedules);
    seq(|schedules|, i requires 0 <= i < |schedules| =>
      assert ids[i] in ids; GetColor(schedules, schedules[i].lecture.id))
  }

  /** The distinct lectures of the order a, b, a, c are a, b, c. */
  lemma DistinctOfRepeat(ids: seq<string>, a: string, b: string, c: string)
    requires a != b && b != c && a != c
    requires ids == [a, b, a, c]
    ensures Dedup(ids) == [a, b, c]
  {
    IndexOfFirst(ids, a, 0);
    IndexOfFirst(ids, b, 1);
    IndexOfFirst(ids, c, 3);
    assert InFirstSeenOrder(ids, [a, b, c]);
    assert forall x :: x in [a, b, c] <==> x in ids;
    DedupUnique(ids, [a, b, c]);
  }

  /** Schedules whose lectures appear in the order a, b, a, c: the three lectures get
      colour indices 0, 1 and 2, and both blocks of a get a's colour. */
  lemma ExampleRepeatedLecture(schedules: seq<Schedule>, a: string, b: string, c: string)
    requires a != b && b != c && a != c
    requires LectureIds(schedules) == [a, b, a, c]
    ensures ColorIndex(schedules, a) == 0
    ensures ColorIndex(schedules, b) == 1
    ensures ColorIndex(schedules, c) == 2
  {
    DistinctOfRepeat(LectureIds(schedules), a, b, c);
    var d := DistinctLectures(schedules);
    IndexOfFirst(d, a, 0);
    IndexOfFirst(d, b, 1);
    IndexOfFirst(d, c, 2);
  }

  /** Seven schedules of seven different lectures: the seventh block is shown in the
      first one's colour. */
  lemma ExampleSeventhReusesFirst(schedules: seq<Schedule>)
    requires |schedules| == 7 && NoDups(LectureIds(schedules))
    ensures var ids := LectureIds(schedules);
            && ids[0] in ids && ids[6] in ids
            && GetColor(schedules, ids[6]) == GetColor(schedules, ids[0])
  {
    var ids := LectureIds(schedules);
    forall i, j | 0 <= i < j < |ids|
      ensures IndexOf(ids, ids[i]) < IndexOf(ids, ids[j])
    {
      IndexOfNoDups(ids, i);
      IndexOfNoDups(ids, j);
    }
    DedupUnique(ids, ids);
    CyclicReuse(schedules, 0, 1);
  }
}
