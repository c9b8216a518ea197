/** The GUI backend's telemetry events: a ring of 64 slots that holds the last 64 pushed. */
module EventRing {
  import opened CArith
  import opened Options

  const MAX_EVENTS := 64

  datatype Kind = Uplink | Downlink | Info | Error

  datatype Event = Event(kind: Kind, timestamp: int, origin: string, summary: string, detail: string)

  /** `strncpy` into a field of the given size, which is then terminated. */
  function Field(text: string, size: nat): (f: string)
    requires size > 0
    ensures |f| < size
  {
    text[..Min(|text|, size - 1)]
  }

  function MakeEvent(kind: Kind, timestamp: int, origin: Option<string>, summary: Option<string>,
                     detail: Option<string>): Event {
    Event(kind, timestamp,
          Field(if origin.Some? then origin.value else "UNKNOWN", 32),
          Field(if summary.Some? then summary.value else "", 128),
          if detail.Some? then Field(detail.value, 256) else "")
  }

  /** A text's beginning, all of it when it is shorter than the field, else one character less
      than the field's size. */
  predicate IsCut(f: string, text: string, size: nat) {
    f <= text && (|f| == |text| < size || |f| == size - 1 < |text|)
  }

  /** What an event says: kind and time as they were given, and each text in its own field, cut
      to 31, 127 and 255 characters; a missing origin is "UNKNOWN", the other texts empty. */
  lemma EventSays(kind: Kind, timestamp: int, origin: Option<string>, summary: Option<string>, detail: Option<string>)
    ensures var e := MakeEvent(kind, timestamp, origin, summary, detail);
            && e.kind == kind && e.timestamp == timestamp
            && (if origin.Some? then IsCut(e.origin, origin.value, 32) else e.origin == "UNKNOWN")
            && (if summary.Some? then IsCut(e.summary, summary.value, 128) else e.summary == "")
            && (if detail.Some? then IsCut(e.detail, detail.value, 256) else e.detail == "")
  {
  }

  // ---------------------------------------------------------------------------------------
  // The last n of a history
  // ---------------------------------------------------------------------------------------

  function LastN<T>(s: seq<T>, n: nat): seq<T> {
    if |s| <= n then s else s[|s| - n..]
  }

  /** The last n are an end of the history, n long or all of it. */
  lemma LastNIsSuffix<T>(s: seq<T>, n: nat)
    ensures var r := LastN(s, n);
            |r| == Min(|s|, n) && r == s[|s| - |r|..]
  {
  }

  /** Keeping the last n after each step keeps the last n of everything. */
  lemma LastNStep<T>(h: seq<T>, x: T, n: nat)
    ensures LastN(LastN(h, n) + [x], n) == LastN(h + [x], n)
  {
  }

  /** The last m of the last n. */
  lemma LastNOfLastN<T>(h: seq<T>, n: nat, m: nat)
    ensures LastN(LastN(h, n), m) == LastN(h, Min(n, m))
  {
  }

  /** The ring's contents after a run of pushes, one bounded step at a time. */
  function AfterPushes<T>(contents: seq<T>, pushes: seq<T>): seq<T>
    decreases |pushes|
  {
    if |pushes| == 0 then contents
    else AfterPushes(LastN(contents + [pushes[0]], MAX_EVENTS), pushes[1..])
  }

  /** After any run of pushes the ring holds the last 64 of the whole history. */
  lemma {:induction false} RingIsLastPushes<T>(history: seq<T>, pushes: seq<T>)
    ensures AfterPushes(LastN(history, MAX_EVENTS), pushes) == LastN(history + pushes, MAX_EVENTS)
    decreases |pushes|
  {
    if |pushes| == 0 {
      assert history + pushes == history;
    } else {
      LastNStep(history, pushes[0], MAX_EVENTS);
      assert history + pushes == (history + [pushes[0]]) + pushes[1..];
      RingIsLastPushes(history + [pushes[0]], pushes[1..]);
    }
  }

  /** A client that asks for everything sees every event pushed since its last question
      exactly when no more than 64 were. */
  lemma PollingSeesAll<T>(history: seq<T>, since: seq<T>)
    ensures LastN(AfterPushes(LastN(history, MAX_EVENTS), since), |since|) == since
       <==> |since| <= 64
  {
    RingIsLastPushes(history, since);
    LastNOfLastN(history + since, MAX_EVENTS, |since|);
    if |since| > MAX_EVENTS {
      assert |LastN(history + since, MAX_EVENTS)| == MAX_EVENTS;
    } else {
      assert LastN(history + since, |since|) == since;
    }
  }

  // ---------------------------------------------------------------------------------------
  // The ring
  // ---------------------------------------------------------------------------------------

  function Slot(start: nat, i: nat): nat {
    (start + i) % MAX_EVENTS
  }

  lemma SlotIs(start: nat, i: nat)
    ensures Slot(start, i) == (start + i) % MAX_EVENTS
  {
  }

  /** Different offsets below 64 use different slots. */
  lemma SlotsDistinct(start: nat, i: nat, j: nat)
    requires start < MAX_EVENTS && i < MAX_EVENTS && j < MAX_EVENTS && i != j
    ensures Slot(start, i) != Slot(start, j)
  {
  }

  /** The events that start and count select from the slots, oldest first. */
  function Window(slots: seq<Event>, start: nat, count: nat): (w: seq<Event>)
    requires |slots| == MAX_EVENTS
    ensures |w| == count
  {
    seq(count, i requires 0 <= i < count => slots[Slot(start, i)])
  }

  /** Writing the slot behind a window that is not full extends it. */
  lemma WindowGrows(slots: seq<Event>, start: nat, count: nat, e: Event)
    requires |slots| == MAX_EVENTS && start < MAX_EVENTS && count < MAX_EVENTS
    ensures Window(slots[Slot(start, count) := e], start, count + 1) == Window(slots, start, count) + [e]
  {
    forall i | 0 <= i < count
      ensures slots[Slot(start, count) := e][Slot(start, i)] == slots[Slot(start, i)]
    {
      SlotsDistinct(start, i, count);
    }
  }

  /** Writing the oldest slot of a full window and moving on by one slides it. */
  lemma WindowSlides(slots: seq<Event>, start: nat, e: Event)
    requires |slots| == MAX_EVENTS && start < MAX_EVENTS
    ensures Window(slots[start := e], (start + 1) % MAX_EVENTS, MAX_EVENTS)
         == Window(slots, start, MAX_EVENTS)[1..] + [e]
  {
    var w := Window(slots[start := e], (start + 1) % MAX_EVENTS, MAX_EVENTS);
    forall i | 0 <= i < MAX_EVENTS
      ensures w[i] == (Window(slots, start, MAX_EVENTS)[1..] + [e])[i]
    {
      SlotShifted(start, i);
      if i < MAX_EVENTS - 1 {
        SlotsDistinct(start, 0, i + 1);
      }
    }
  }

  lemma SlotShifted(start: nat, i: nat)
    requires start < MAX_EVENTS && i < MAX_EVENTS
    ensures Slot((start + 1) % MAX_EVENTS, i) == Slot(start, i + 1)
    ensures Slot(start, 0) == start && Slot(start, MAX_EVENTS) == start
  {
  }

  class Ring {
    var events: array<Event>
    var start: nat
    var count: nat
    ghost var history: seq<Event>  // every event ever pushed

    ghost predicate Shape()
      reads this
    {
      events.Length == MAX_EVENTS && start < MAX_EVENTS && count <= MAX_EVENTS
    }

    ghost function Contents(): (s: seq<Event>)
      requires Shape()
      reads this, events
    {
      Window(events[..], start, count)
    }

    ghost predicate Valid()
      reads this, events
    {
      Shape() && Contents() == LastN(history, MAX_EVENTS)
    }

    constructor ()
      ensures Valid() && history == [] && fresh(events)
    {
      events := new Event[MAX_EVENTS](_ => Event(Info, 0, "", "", ""));
      start, count, history := 0, 0, [];
    }

    method PushEvent(kind: Kind, timestamp: int, origin: Option<string>, summary: Option<string>,
                     detail: Option<string>)
      requires Valid()
      modifies this, events
      ensures Valid() && events == old(events)
      ensures history == old(history) + [MakeEvent(kind, timestamp, origin, summary, detail)]
      ensures Contents() == LastN(old(Contents()) + [MakeEvent(kind, timestamp, origin, summary, detail)], MAX_EVENTS)
      ensures |Contents()| > 0
      ensures var e := Contents()[|Contents()| - 1];
              && e.kind == kind && e.timestamp == timestamp
              && (if origin.Some? then IsCut(e.origin, origin.value, 32) else e.origin == "UNKNOWN")
              && (if summary.Some? then IsCut(e.summary, summary.value, 128) else e.summary == "")
              && (if detail.Some? then IsCut(e.detail, detail.value, 256) else e.detail == "")
    {
      EventSays(kind, timestamp, origin, summary, detail);
      hide Slot, MakeEvent, Window, IsCut;
      var event := MakeEvent(kind, timestamp, origin, summary, detail);
      ghost var slots := events[..];
      SlotIs(start, count);
      if count < MAX_EVENTS {
        WindowGrows(slots, start, count, event);
      } else {
        WindowSlides(slots, start, event);
        SlotShifted(start, 0);
      }
      LastNStep(history, event, MAX_EVENTS);
      var index := (start + count) % MAX_EVENTS;
      events[index] := event;
      assert events[..] == slots[index := event];
      if count < MAX_EVENTS {
        count := count + 1;
      } else {
        start := (start + 1) % MAX_EVENTS;
      }
      history := history + [event];
    }

    /** Copies the newest events out of the ring, oldest first. */
    method CopyNewest(total: nat) returns (list: seq<Event>)
      requires Shape() && total <= count
      ensures list == Contents()[count - total..]
    {
      var copies := new Event[MAX_EVENTS](_ => Event(Info, 0, "", "", ""));
      ghost var contents := Contents();
      var i := 0;
      while i < total
        invariant 0 <= i <= total
        invariant forall k :: 0 <= k < i ==> copies[k] == contents[count - total + k]
      {
        var index := (start + count - total + i) % MAX_EVENTS;
        SlotIs(start, count - total + i);
        copies[i] := events[index];
        i := i + 1;
      }
      list := copies[..total];
    }

    /** GET_EVENTS: no token asks for all; a token must read as a number from 1 to 64. The
        reply lists the newest events asked for, oldest first. */
    method GetEvents(token: Option<Option<int>>) returns (ok: bool, list: seq<Event>)
      requires Valid()
      ensures ok <==> token.None? || (token.value.Some? && 1 <= token.value.value <= MAX_EVENTS)
      ensures ok ==> list == LastN(Contents(), if token.None? then MAX_EVENTS else token.value.value)
      ensures ok ==> list == LastN(history, if token.None? then MAX_EVENTS else token.value.value)
      ensures !ok ==> list == []
    {
      var limit: nat := MAX_EVENTS;
      if token.Some? {
        if token.value.None? || token.value.value < 1 || token.value.value > MAX_EVENTS {
          return false, [];
        }
        limit := token.value.value;
      }
      var total := count;
      if limit < total {
        total := limit;
      }
      hide Window, Slot;
      ok := true;
      list := CopyNewest(total);
      LastNOfLastN(history, MAX_EVENTS, limit);
    }
  }
}
