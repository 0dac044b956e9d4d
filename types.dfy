/** The records the schedule table reads and the values it hands to its callbacks. */
module Types {

  /** A JavaScript value that may be `null` or `undefined` (None). */
  datatype Option<T> = None | Some(value: T)

  /** A lecture, referenced by the schedules that place it; `id` is its identity. */
  datatype Lecture = Lecture(id: string, title: string)

  /** One placement of a lecture: a day label and the 1-based slot numbers it occupies. */
  datatype Schedule = Schedule(lecture: Lecture, day: string, range: seq<int>)

  /** The application state behind the tables: table id to the schedules placed on it. */
  type SchedulesMap = map<string, seq<Schedule>>

  /** The pending search target a clicked cell reports: `{ tableId, day, time }`. */
  datatype SearchInfo = SearchInfo(tableId: string, day: string, time: int)
}
