/** The meeting-slot finder: starting from the whole day, every event that
    shares an attendee with the request cuts the available slots it
    overlaps, and only the leftover pieces that are long enough for the
    meeting are put back. */
module MeetingQuery {
  import opened Calendar

  /** The event is attended by at least one of `targets`. */
  predicate SharesAttendee(event: Event, targets: set<string>) {
    exists a :: a in event.attendees && a in targets
  }

  /** Looks through the event's attendees for one of `targets`, stopping at
      the first one found. */
  method CheckEventAttendees(event: Event, targets: set<string>) returns (found: bool)
    ensures found <==> exists a :: a in event.attendees && a in targets
  {
    var unchecked := event.attendees;
    while unchecked != {}
      invariant unchecked <= event.attendees
      invariant forall a :: a in event.attendees && a !in unchecked ==> a !in targets
      decreases unchecked
    {
      var a :| a in unchecked;
      if a in targets {
        return true;
      }
      unchecked := unchecked - {a};
    }
    return false;
  }

  // ---------------------------------------------------------------------
  // Cutting one range out of another

  /** What is left of `main` before `minor` starts. */
  function LeftRemainder(main: TimeRange, minor: TimeRange): (r: TimeRange)
    ensures r.start == main.start && r.start <= r.end
    ensures main.start <= main.end && minor.start <= main.end ==> r.Within(main)
    ensures forall t :: r.Contains(t) ==> main.start <= t && !minor.Contains(t)
    ensures forall t :: main.Contains(t) && t < minor.start ==> r.Contains(t)
  {
    TimeRange(main.start, Max(main.start, minor.start))
  }

  /** What is left of `main` after `minor` ends. */
  function RightRemainder(main: TimeRange, minor: TimeRange): (r: TimeRange)
    ensures r.end == main.end && r.start <= r.end
    ensures main.start <= main.end && main.start <= minor.end ==> r.Within(main)
    ensures forall t :: r.Contains(t) ==> t < main.end && !minor.Contains(t)
    ensures forall t :: main.Contains(t) && minor.end <= t ==> r.Contains(t)
  {
    TimeRange(Min(main.end, minor.end), main.end)
  }

  /** The pieces of `main` left once `minor` is cut out of it, left piece
      first, keeping only the pieces at least `targetDuration` long. */
  function DifferenceSlots(main: TimeRange, minor: TimeRange, targetDuration: int): (r: seq<TimeRange>)
    ensures |r| == (if LeftRemainder(main, minor).Duration() >= targetDuration then 1 else 0)
                 + (if RightRemainder(main, minor).Duration() >= targetDuration then 1 else 0)
    ensures forall s :: s in r ==> s == LeftRemainder(main, minor) || s == RightRemainder(main, minor)
    ensures LeftRemainder(main, minor).Duration() >= targetDuration ==> |r| > 0 && r[0] == LeftRemainder(main, minor)
    ensures RightRemainder(main, minor).Duration() >= targetDuration ==> |r| > 0 && r[|r| - 1] == RightRemainder(main, minor)
    ensures forall s :: s in r ==> s.Duration() >= targetDuration && s.start <= s.end
    ensures forall s :: s in r ==> !Overlaps(s, minor)
    ensures Overlaps(main, minor) ==> forall s :: s in r ==> s.Within(main)
  {
    var left := LeftRemainder(main, minor);
    var right := RightRemainder(main, minor);
    (if left.Duration() >= targetDuration then [left] else [])
    + (if right.Duration() >= targetDuration then [right] else [])
  }

  /** Cutting `minor` out of `main` removes exactly the minutes of `minor`:
      a minute lies in one of the two remainders exactly when it lies in
      `main` and not in `minor`. */
  lemma RemaindersAreDifference(main: TimeRange, minor: TimeRange, t: int)
    requires Overlaps(main, minor)
    ensures LeftRemainder(main, minor).Contains(t) || RightRemainder(main, minor).Contains(t)
            <==> main.Contains(t) && !minor.Contains(t)
  {
  }

  /** A range of at least `d` minutes that lies in `main` and clear of
      `minor` lies in one of the pieces `DifferenceSlots` keeps. */
  lemma DifferenceSlotsKeepsRoom(main: TimeRange, minor: TimeRange, d: int, w: TimeRange)
    requires d > 0 && w.Duration() >= d
    requires w.Within(main) && !Overlaps(w, minor) && Overlaps(main, minor)
    ensures exists p :: p in DifferenceSlots(main, minor, d) && w.Within(p)
  {
    var left := LeftRemainder(main, minor);
    var right := RightRemainder(main, minor);
    if w.end <= minor.start {
      assert w.Within(left);
      assert left.Duration() >= d;
      assert DifferenceSlots(main, minor, d)[0] == left;
    } else {
      assert minor.end <= w.start;
      assert w.Within(right);
      assert right.Duration() >= d;
      var r := DifferenceSlots(main, minor, d);
      assert r[|r| - 1] == right;
    }
  }

  // ---------------------------------------------------------------------
  // One event's pass over the available slots

  /** The slots that do not overlap `when`, in their original order: what
      the list holds once the overlapping ones have been removed. */
  function Survivors(slots: seq<TimeRange>, when: TimeRange): (r: seq<TimeRange>)
    ensures |r| <= |slots|
    ensures forall s :: s in r <==> s in slots && !Overlaps(s, when)
  {
    if slots == [] then []
    else
      var last := slots[|slots| - 1];
      var rest := Survivors(slots[..|slots| - 1], when);
      assert slots == slots[..|slots| - 1] + [last];
      if Overlaps(last, when) then rest else rest + [last]
  }

  /** The pieces collected from the slots that overlap `when`, in the order
      those slots appear. */
  function Pieces(slots: seq<TimeRange>, when: TimeRange, targetDuration: int): (r: seq<TimeRange>)
    ensures forall p :: p in r ==> p.Duration() >= targetDuration && !Overlaps(p, when)
    ensures forall p :: p in r ==> exists s :: s in slots && Overlaps(s, when) && p.Within(s)
    ensures forall p :: p in r ==> exists s :: s in slots && Overlaps(s, when) && p in DifferenceSlots(s, when, targetDuration)
  {
    if slots == [] then []
    else
      var last := slots[|slots| - 1];
      var rest := Pieces(slots[..|slots| - 1], when, targetDuration);
      assert forall s :: s in slots[..|slots| - 1] ==> s in slots;
      if Overlaps(last, when) then rest + DifferenceSlots(last, when, targetDuration) else rest
  }

  /** Every piece that `DifferenceSlots` yields for an overlapping slot is
      among the collected pieces. */
  lemma {:induction false} PiecesComplete(slots: seq<TimeRange>, when: TimeRange, d: int, s: TimeRange, p: TimeRange)
    requires s in slots && Overlaps(s, when) && p in DifferenceSlots(s, when, d)
    ensures p in Pieces(slots, when, d)
  {
    var last := slots[|slots| - 1];
    if s != last {
      assert slots == slots[..|slots| - 1] + [last];
      PiecesComplete(slots[..|slots| - 1], when, d, s, p);
    }
  }

  /** The list after one event's pass: unrelated events change nothing;
      otherwise the slots clear of the event stay in place and the pieces of
      the overlapping ones are appended after them. */
  function AfterEvent(slots: seq<TimeRange>, event: Event, targets: set<string>, targetDuration: int): (r: seq<TimeRange>)
    ensures !SharesAttendee(event, targets) ==> r == slots
    ensures SharesAttendee(event, targets) ==> forall s :: s in r ==> !Overlaps(s, event.when)
  {
    if SharesAttendee(event, targets) then
      Survivors(slots, event.when) + Pieces(slots, event.when, targetDuration)
    else
      slots
  }

  /** The list after the passes of all `events`, in order. */
  function AfterEvents(slots: seq<TimeRange>, events: seq<Event>, targets: set<string>, targetDuration: int): seq<TimeRange>
  {
    if events == [] then slots
    else AfterEvent(AfterEvents(slots, events[..|events| - 1], targets, targetDuration),
                    events[|events| - 1], targets, targetDuration)
  }

  /** Events none of the targets attend leave the slots as they were. */
  lemma {:induction false} UnrelatedEventsChangeNothing(slots: seq<TimeRange>, events: seq<Event>, targets: set<string>, d: int)
    requires forall e :: e in events ==> !SharesAttendee(e, targets)
    ensures AfterEvents(slots, events, targets, d) == slots
  {
    if events != [] {
      var init := events[..|events| - 1];
      assert forall e :: e in init ==> e in events;
      UnrelatedEventsChangeNothing(slots, init, targets, d);
    }
  }

  // ---------------------------------------------------------------------
  // What the resulting slots satisfy

  /** Every slot lies inside the whole day and is at least `d` long. */
  predicate FitsDay(slots: seq<TimeRange>, d: int) {
    forall s :: s in slots ==> s.Within(WholeDay) && s.Duration() >= d
  }

  /** `w` overlaps no event that one of `targets` attends. */
  predicate ClearOf(w: TimeRange, events: seq<Event>, targets: set<string>) {
    forall e :: e in events && SharesAttendee(e, targets) ==> !Overlaps(w, e.when)
  }

  /** Every slot after a pass lies inside some slot from before it. */
  lemma AfterEventShrinks(slots: seq<TimeRange>, event: Event, targets: set<string>, d: int, p: TimeRange)
    returns (s: TimeRange)
    requires p in AfterEvent(slots, event, targets, d)
    ensures s in slots && p.Within(s)
  {
    if SharesAttendee(event, targets) && p !in Survivors(slots, event.when) {
      assert p in Pieces(slots, event.when, d);
      s :| s in slots && Overlaps(s, event.when) && p.Within(s);
    } else {
      s := p;
    }
  }

  /** One slot after a pass: it fits the day and is clear of the events so
      far and of the new event, given that every slot before the pass was. */
  lemma AfterEventSlotSound(slots: seq<TimeRange>, events: seq<Event>, event: Event, targets: set<string>, d: int, p: TimeRange)
    requires FitsDay(slots, d)
    requires forall s :: s in slots ==> ClearOf(s, events, targets)
    requires p in AfterEvent(slots, event, targets, d)
    ensures p.Within(WholeDay) && p.Duration() >= d
    ensures ClearOf(p, events + [event], targets)
  {
    var s := AfterEventShrinks(slots, event, targets, d, p);
    if SharesAttendee(event, targets) && p !in Survivors(slots, event.when) {
      assert p in Pieces(slots, event.when, d);
    }
    WithinTransitive(p, s, WholeDay);
    assert ClearOf(s, events, targets);
    forall e | e in events + [event] && SharesAttendee(e, targets)
      ensures !Overlaps(p, e.when)
    {
      if e in events {
        WithinKeepsClear(p, s, e.when);
      }
    }
  }

  /** Slots that fit the day and are clear of the events so far still are
      after one more pass, and are also clear of the new event. */
  lemma AfterEventSound(slots: seq<TimeRange>, events: seq<Event>, event: Event, targets: set<string>, d: int)
    requires FitsDay(slots, d)
    requires forall s :: s in slots ==> ClearOf(s, events, targets)
    ensures FitsDay(AfterEvent(slots, event, targets, d), d)
    ensures forall p :: p in AfterEvent(slots, event, targets, d) ==> ClearOf(p, events + [event], targets)
  {
    forall p | p in AfterEvent(slots, event, targets, d)
      ensures p.Within(WholeDay) && p.Duration() >= d && ClearOf(p, events + [event], targets)
    {
      AfterEventSlotSound(slots, events, event, targets, d, p);
    }
  }

  /** A range of at least `d` minutes that lies inside some slot and is
      clear of the event still lies inside some slot after the pass. */
  lemma AfterEventComplete(slots: seq<TimeRange>, event: Event, targets: set<string>, d: int, w: TimeRange)
    requires d > 0 && w.Duration() >= d
    requires exists s :: s in slots && w.Within(s)
    requires SharesAttendee(event, targets) ==> !Overlaps(w, event.when)
    ensures exists p :: p in AfterEvent(slots, event, targets, d) && w.Within(p)
  {
    var s :| s in slots && w.Within(s);
    if SharesAttendee(event, targets) {
      if Overlaps(s, event.when) {
        DifferenceSlotsKeepsRoom(s, event.when, d, w);
        var p :| p in DifferenceSlots(s, event.when, d) && w.Within(p);
        PiecesComplete(slots, event.when, d, s, p);
        assert p in AfterEvent(slots, event, targets, d);
      } else {
        assert s in Survivors(slots, event.when);
        assert s in AfterEvent(slots, event, targets, d);
      }
    }
  }

  /** Soundness of the whole sequence of passes. */
  lemma {:induction false} AfterEventsSound(slots: seq<TimeRange>, events: seq<Event>, targets: set<string>, d: int)
    requires FitsDay(slots, d)
    ensures FitsDay(AfterEvents(slots, events, targets, d), d)
    ensures forall p :: p in AfterEvents(slots, events, targets, d) ==> ClearOf(p, events, targets)
  {
    if events == [] {
    } else {
      var init := events[..|events| - 1];
      var last := events[|events| - 1];
      AfterEventsSound(slots, init, targets, d);
      AfterEventSound(AfterEvents(slots, init, targets, d), init, last, targets, d);
      assert init + [last] == events;
    }
  }

  /** Completeness of the whole sequence of passes: room of at least `d`
      minutes clear of every attended event is never lost. */
  lemma {:induction false} AfterEventsComplete(slots: seq<TimeRange>, events: seq<Event>, targets: set<string>, d: int, w: TimeRange)
    requires d > 0 && w.Duration() >= d
    requires exists s :: s in slots && w.Within(s)
    requires ClearOf(w, events, targets)
    ensures exists p :: p in AfterEvents(slots, events, targets, d) && w.Within(p)
  {
    if events != [] {
      var init := events[..|events| - 1];
      var last := events[|events| - 1];
      assert forall e :: e in init ==> e in events;
      AfterEventsComplete(slots, init, targets, d, w);
      AfterEventComplete(AfterEvents(slots, init, targets, d), last, targets, d, w);
    }
  }

  // ---------------------------------------------------------------------
  // The query

  /** The slots the query answers with, as a value. */
  function QuerySlots(events: seq<Event>, request: MeetingRequest): seq<TimeRange>
  {
    if request.duration > WholeDay.Duration() then []
    else AfterEvents([WholeDay], events, request.attendees, request.duration)
  }

  /** Every slot of the answer lies inside the day, is long enough for the
      meeting and overlaps no event a requested attendee goes to. */
  lemma QuerySound(events: seq<Event>, request: MeetingRequest)
    ensures FitsDay(QuerySlots(events, request), request.duration)
    ensures forall s :: s in QuerySlots(events, request) ==> ClearOf(s, events, request.attendees)
  {
    if request.duration <= WholeDay.Duration() {
      AfterEventsSound([WholeDay], events, request.attendees, request.duration);
    }
  }

  /** Every stretch of the day long enough for the meeting and clear of the
      requested attendees' events lies inside some slot of the answer. */
  lemma QueryComplete(events: seq<Event>, request: MeetingRequest, w: TimeRange)
    requires request.duration > 0 && w.Duration() >= request.duration
    requires w.Within(WholeDay) && ClearOf(w, events, request.attendees)
    ensures exists s :: s in QuerySlots(events, request) && w.Within(s)
  {
    assert WholeDay in [WholeDay];
    AfterEventsComplete([WholeDay], events, request.attendees, request.duration, w);
  }

  // ---------------------------------------------------------------------
  // The mutable list the passes work on

  /** A list of time ranges that is updated in place. */
  class SlotList {
    var items: seq<TimeRange>

    constructor ()
      ensures items == []
    {
      items := [];
    }

    method Add(s: TimeRange)
      modifies this
      ensures items == old(items) + [s]
    {
      items := items + [s];
    }

    method AddAll(ss: seq<TimeRange>)
      modifies this
      ensures items == old(items) + ss
    {
      items := items + ss;
    }

    /** Removes the element an iterator stands on. */
    method RemoveAt(k: nat)
      requires k < |items|
      modifies this
      ensures items == old(items[..k] + items[k + 1..])
    {
      items := items[..k] + items[k + 1..];
    }
  }

  /** `Survivors` of a list grown by one slot. */
  lemma SurvivorsSnoc(slots: seq<TimeRange>, s: TimeRange, when: TimeRange)
    ensures Survivors(slots + [s], when)
            == if Overlaps(s, when) then Survivors(slots, when) else Survivors(slots, when) + [s]
  {
    assert (slots + [s])[..|slots|] == slots;
  }

  /** `Pieces` of a list grown by one slot. */
  lemma PiecesSnoc(slots: seq<TimeRange>, s: TimeRange, when: TimeRange, d: int)
    ensures Pieces(slots + [s], when, d)
            == if Overlaps(s, when) then Pieces(slots, when, d) + DifferenceSlots(s, when, d) else Pieces(slots, when, d)
  {
    assert (slots + [s])[..|slots|] == slots;
  }

  /** One step of the iterator in `RemoveOverlapping`: the list holds the
      survivors of the first `i` slots followed by the slots not yet visited,
      and the iterator stands on slot `i`. */
  lemma IteratorStep(before: seq<TimeRange>, i: nat, when: TimeRange, d: int, items: seq<TimeRange>, k: nat)
    requires i < |before|
    requires items == Survivors(before[..i], when) + before[i..]
    requires k == |Survivors(before[..i], when)|
    ensures k < |items| && items[k] == before[i]
    ensures Overlaps(before[i], when) ==>
              items[..k] + items[k + 1..] == Survivors(before[..i + 1], when) + before[i + 1..]
              && k == |Survivors(before[..i + 1], when)|
    ensures !Overlaps(before[i], when) ==>
              items == Survivors(before[..i + 1], when) + before[i + 1..]
              && k + 1 == |Survivors(before[..i + 1], when)|
    ensures Pieces(before[..i + 1], when, d)
            == Pieces(before[..i], when, d) + if Overlaps(before[i], when) then DifferenceSlots(before[i], when, d) else []
  {
    var x := before[i];
    SplitAt(before, i);
    SurvivorsSnoc(before[..i], x, when);
    PiecesSnoc(before[..i], x, when, d);
    RemoveAtJoin(Survivors(before[..i], when), x, before[i + 1..]);
  }

  /** Splitting a sequence around its element at `i`. */
  lemma SplitAt<T>(s: seq<T>, i: nat)
    requires i < |s|
    ensures s[..i + 1] == s[..i] + [s[i]]
    ensures s[i..] == [s[i]] + s[i + 1..]
  {
  }

  /** Removing the element between `a` and `b` leaves `a + b`. */
  lemma RemoveAtJoin<T>(a: seq<T>, x: T, b: seq<T>)
    ensures (a + ([x] + b))[|a|] == x
    ensures (a + ([x] + b))[..|a|] + (a + ([x] + b))[|a| + 1..] == a + b
    ensures a + ([x] + b) == (a + [x]) + b
  {
    var s := a + ([x] + b);
    assert s[..|a|] == a;
    assert s[|a| + 1..] == b;
  }

  /** Walks `available` with an iterator, removing each slot that overlaps
      `when` and collecting the pieces `DifferenceSlots` leaves of it. */
  method RemoveOverlapping(available: SlotList, when: TimeRange, targetDuration: int) returns (newSlots: seq<TimeRange>)
    modifies available
    ensures available.items == Survivors(old(available.items), when)
    ensures newSlots == Pieces(old(available.items), when, targetDuration)
  {
    newSlots := [];
    ghost var before := available.items;
    // `i` counts the slots of `before` visited, `k` is where the iterator
    // stands in the list.
    var i, k := 0, 0;
    while k < |available.items|
      invariant 0 <= i <= |before|
      invariant available.items == Survivors(before[..i], when) + before[i..]
      invariant k == |Survivors(before[..i], when)|
      invariant newSlots == Pieces(before[..i], when, targetDuration)
      decreases |available.items| - k
    {
      IteratorStep(before, i, when, targetDuration, available.items, k);
      var current := available.items[k];
      if Overlaps(current, when) {
        available.RemoveAt(k);
        newSlots := newSlots + DifferenceSlots(current, when, targetDuration);
      } else {
        k := k + 1;
      }
      i := i + 1;
    }
    assert before[..i] == before;
  }

  /** Runs every event's pass over `available`, in place. */
  method GetSlotsAvailable(events: seq<Event>, targets: set<string>, available: SlotList, targetDuration: int)
    modifies available
    ensures available.items == AfterEvents(old(available.items), events, targets, targetDuration)
  {
    for j := 0 to |events|
      invariant available.items == AfterEvents(old(available.items), events[..j], targets, targetDuration)
    {
      assert events[..j + 1][..j] == events[..j];
      var event := events[j];
      var shares := CheckEventAttendees(event, targets);
      if shares {
        var newSlots := RemoveOverlapping(available, event.when, targetDuration);
        available.AddAll(newSlots);
      }
    }
    assert events[..|events|] == events;
  }

  /** Finds the slots of the day in which every requested attendee is free
      for the requested duration. */
  method Query(events: seq<Event>, request: MeetingRequest) returns (slots: seq<TimeRange>)
    ensures slots == QuerySlots(events, request)
    ensures request.duration > WholeDay.Duration() ==> slots == []
    ensures forall s :: s in slots ==> s.Within(WholeDay) && s.Duration() >= request.duration
    ensures forall s :: s in slots ==> ClearOf(s, events, request.attendees)
    ensures request.duration > 0 ==>
              forall w: TimeRange :: w.Within(WholeDay) && w.Duration() >= request.duration && ClearOf(w, events, request.attendees)
                ==> exists s :: s in slots && w.Within(s)
  {
    var available := new SlotList();
    var duration := request.duration;
    if duration > WholeDay.Duration() {
      return available.items;
    }
    available.Add(WholeDay);
    assert available.items == [WholeDay];
    GetSlotsAvailable(events, request.attendees, available, duration);
    slots := available.items;
    QuerySound(events, request);
    if request.duration > 0 {
      forall w: TimeRange | w.Within(WholeDay) && w.Duration() >= request.duration && ClearOf(w, events, request.attendees)
        ensures exists s :: s in slots && w.Within(s)
      {
        QueryComplete(events, request, w);
      }
    }
  }
}
