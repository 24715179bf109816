/**
 * The frame scheduler: for every day of an inclusive range, the day's
 * regular frames, then, if the event table lists the day, a run of event
 * frames for each distinct part of the day in first-appearance order.
 * Days are ordinals, so the one-day step is `+ 1`.
 */
module Scheduler {

  /** A row of the event table: its date (an ordinal), part and description. */
  datatype Event = Event(date: int, part: int, text: string)

  /**
   * An animation frame. `slot` is the timestep `0 .. regular - 1` of a regular
   * frame and the event's part number of an event frame.
   */
  datatype Frame = Frame(date: int, slot: int, isEvent: bool)

  /** The event table lists `(d, p)` at row `i`. */
  predicate Lists(events: seq<Event>, i: int, d: int, p: int)
    requires 0 <= i < |events|
  {
    events[i].date == d && events[i].part == p
  }

  /** The set of parts the event table lists for day `d`. */
  function PartSet(events: seq<Event>, d: int): set<int> {
    set e | e in events && e.date == d :: e.part
  }

  /** `events_df[events_df['Date'] == d]['Part']`, in table order. */
  function PartsOn(events: seq<Event>, d: int): seq<int> {
    if events == [] then []
    else
      var rest := PartsOn(events[1..], d);
      if events[0].date == d then [events[0].part] + rest else rest
  }

  /** The parts listed for day `d` are exactly the day's part set. */
  lemma {:induction false} PartsOnMembers(events: seq<Event>, d: int)
    ensures forall p :: p in PartsOn(events, d) <==> p in PartSet(events, d)
  {
    if events != [] {
      PartsOnMembers(events[1..], d);
      assert forall e :: e in events <==> e == events[0] || e in events[1..];
    }
  }

  predicate Distinct(s: seq<int>) {
    forall i, j :: 0 <= i < j < |s| ==> s[i] != s[j]
  }

  /** `Series.unique()`: each value once, in the order of its first appearance. */
  function Unique(s: seq<int>): (r: seq<int>)
    ensures |r| <= |s| && Distinct(r)
  {
    if s == [] then []
    else
      var u := Unique(s[..|s| - 1]);
      if s[|s| - 1] in u then u else u + [s[|s| - 1]]
  }

  /** `Unique` keeps every value of its input, and each only once. */
  lemma {:induction false} UniqueMembers(s: seq<int>)
    ensures forall x :: x in Unique(s) <==> x in s
    ensures Distinct(Unique(s))
  {
    if s != [] {
      UniqueMembers(s[..|s| - 1]);
      assert forall x :: x in s <==> x in s[..|s| - 1] || x == s[|s| - 1];
    }
  }

  /** The position of the first `x` in `s`. */
  function FirstIndex(s: seq<int>, x: int): (i: nat)
    requires x in s
    ensures i < |s| && s[i] == x && x !in s[..i]
  {
    if s[0] == x then 0
    else
      assert s == [s[0]] + s[1..];
      var j := FirstIndex(s[1..], x);
      assert s[..j + 1] == [s[0]] + s[1..][..j];
      j + 1
  }

  /** The regular frames of day `d`: timesteps `0 .. n - 1`. */
  function RegularFrames(d: int, n: nat): (r: seq<Frame>)
    ensures |r| == n
  {
    if n == 0 then [] else RegularFrames(d, n - 1) + [Frame(d, n - 1, false)]
  }

  /** Regular frame `t` of a day is the day's frame with timestep `t`. */
  lemma {:induction false} RegularFramesAt(d: int, n: nat)
    ensures forall t :: 0 <= t < n ==> RegularFrames(d, n)[t] == Frame(d, t, false)
  {
    if n > 0 {
      RegularFramesAt(d, n - 1);
    }
  }

  function Repeat(f: Frame, n: nat): (r: seq<Frame>)
    ensures |r| == n && forall i :: 0 <= i < n ==> r[i] == f
  {
    if n == 0 then [] else Repeat(f, n - 1) + [f]
  }

  /** The event frames of day `d`: `n` frames for each part in `parts`, in order. */
  function EventFrames(d: int, parts: seq<int>, n: nat): seq<Frame> {
    if parts == [] then []
    else EventFrames(d, parts[..|parts| - 1], n) + Repeat(Frame(d, parts[|parts| - 1], true), n)
  }

  /** What one pass of the loop body at lines 72-77 appends for day `d`. */
  function DayFrames(events: seq<Event>, d: int, regular: nat, event: nat): seq<Frame> {
    var parts := PartsOn(events, d);
    RegularFrames(d, regular) + (if parts != [] then EventFrames(d, Unique(parts), event) else [])
  }

  /** Day `d`'s frames as a function of the day. */
  function Days(events: seq<Event>, regular: nat, event: nat): int -> seq<Frame> {
    d => DayFrames(events, d, regular, event)
  }

  /** The blocks `day(start) + day(start + 1) + ... + day(end)`; nothing when `start > end`. */
  function Concat(day: int -> seq<Frame>, start: int, end: int): seq<Frame>
    decreases end - start
  {
    if start > end then [] else Concat(day, start, end - 1) + day(end)
  }

  /** The frame list for the days `start .. end`, both included. */
  function Schedule(events: seq<Event>, start: int, end: int, regular: nat, event: nat): seq<Frame> {
    Concat(Days(events, regular, event), start, end)
  }

  /** The loop at lines 69-78. */
  method BuildFrames(events: seq<Event>, start: int, end: int, regular: nat, event: nat)
    returns (frames: seq<Frame>)
    ensures frames == Schedule(events, start, end, regular, event)
  {
    ghost var day := Days(events, regular, event);
    frames := [];
    var current := start;
    while current <= end
      invariant start <= current <= if start <= end then end + 1 else start
      invariant frames == Concat(day, start, current - 1)
    {
      frames := AppendDay(frames, events, current, regular, event);
      current := current + 1;
    }
  }

  /** One pass of the loop body at lines 72-77: the frames of day `d` appended. */
  method AppendDay(frames: seq<Frame>, events: seq<Event>, d: int, regular: nat, event: nat)
    returns (out: seq<Frame>)
    ensures out == frames + DayFrames(events, d, regular, event)
  {
    out := frames;
    for t := 0 to regular
      invariant out == frames + RegularFrames(d, t)
    {
      out := out + [Frame(d, t, false)];
    }
    var parts := PartsOn(events, d);
    if parts != [] {
      var distinct := Unique(parts);
      for k := 0 to |distinct|
        invariant out == frames + RegularFrames(d, regular) + EventFrames(d, distinct[..k], event)
      {
        ghost var done := out;
        for t := 0 to event
          invariant out == done + Repeat(Frame(d, distinct[k], true), t)
        {
          out := out + [Frame(d, distinct[k], true)];
        }
        assert distinct[..k + 1][..k] == distinct[..k];
      }
      assert distinct[..|distinct|] == distinct;
    }
  }
}
