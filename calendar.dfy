/** The calendar vocabulary the meeting finder is written against: time
    ranges, events and meeting requests. Their own implementation is not part
    of this model; they are described here only through the interface the
    meeting finder uses. */
module Calendar {

  /** A half-open range of minutes `[start, end)`. */
  datatype TimeRange = TimeRange(start: int, end: int)
  {
    function Duration(): int {
      end - start
    }

    /** The minute `t` lies in this range (the end is exclusive). */
    predicate Contains(t: int) {
      start <= t < end
    }

    /** This range lies inside `outer`. */
    predicate Within(outer: TimeRange) {
      outer.start <= start && end <= outer.end
    }
  }

  const StartOfDay: int := 0
  /** The number of minutes in a day: the exclusive end of the whole day. */
  const MinutesPerDay: int := 24 * 60

  /** The whole day, `[0, 1440)`. */
  const WholeDay: TimeRange := TimeRange(StartOfDay, MinutesPerDay)

  /** Two ranges overlap when some minute lies in both of them; a range
      with no minutes therefore overlaps nothing. */
  predicate Overlaps(a: TimeRange, b: TimeRange) {
    a.start < a.end && b.start < b.end && a.start < b.end && b.start < a.end
  }

  /** An already scheduled event: when it happens and who attends it. */
  datatype Event = Event(when: TimeRange, attendees: set<string>)

  /** A request for a meeting of `duration` minutes with `attendees`. */
  datatype MeetingRequest = MeetingRequest(duration: int, attendees: set<string>)

  function Max(a: int, b: int): int {
    if a >= b then a else b
  }

  function Min(a: int, b: int): int {
    if a <= b then a else b
  }

  /** Overlapping is exactly sharing a minute. */
  lemma OverlapsIffSharedMinute(a: TimeRange, b: TimeRange)
    ensures Overlaps(a, b) <==> exists t :: a.Contains(t) && b.Contains(t)
  {
    if Overlaps(a, b) {
      var t := Max(a.start, b.start);
      assert a.Contains(t) && b.Contains(t);
    }
  }

  /** On ranges that hold at least one minute, overlapping is the same as
      one range holding the other's first minute. */
  lemma OverlapsIffStartContained(a: TimeRange, b: TimeRange)
    requires a.start < a.end && b.start < b.end
    ensures Overlaps(a, b) <==> a.Contains(b.start) || b.Contains(a.start)
  {
  }

  /** A part of a range that is clear of `x` stays clear of `x`. */
  lemma WithinKeepsClear(p: TimeRange, s: TimeRange, x: TimeRange)
    requires p.Within(s) && !Overlaps(s, x)
    ensures !Overlaps(p, x)
  {
  }

  /** Containment is transitive. */
  lemma WithinTransitive(p: TimeRange, s: TimeRange, q: TimeRange)
    requires p.Within(s) && s.Within(q)
    ensures p.Within(q)
  {
  }
}
