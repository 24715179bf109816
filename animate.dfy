/**
 * The script's top level: parse the file list, build the registry, fix the
 * season window from the last file's year, and lay out the frames; plus the
 * facts that tie the frame list to what `update` does with each frame.
 */
module Animation {
  import opened Wrappers
  import opened Calendar
  import opened FileNames
  import opened Scheduler
  import opened ScheduleProperties
  import opened Registry
  import opened Render

  /** Frames per day, and frames per event part. */
  const RegularDwell: nat := 2
  const EventDwell: nat := 10

  /** The first and last day shown, as ordinals, both included. */
  datatype Window = Window(first: int, last: int)

  /**
   * April 20 to June 17 of the year of the last file in the list; no window
   * when the list is empty, where the script stops because `YYYY` was never set.
   */
  function SeasonWindow(infos: seq<FileInfo>): (r: Option<Window>)
    ensures r.None? <==> infos == []
    ensures r.Some? ==> r.value.first == Ordinal(Date(infos[|infos| - 1].date.year, 4, 20))
    ensures r.Some? ==> r.value.last == r.value.first + 58
  {
    if infos == [] then None
    else
      var y := infos[|infos| - 1].date.year;
      Some(Window(Ordinal(Date(y, 4, 20)), Ordinal(Date(y, 6, 17))))
  }

  /** The season has 59 days of regular frames plus the event runs. */
  lemma SeasonLength(events: seq<Event>, w: Window)
    requires w.last == w.first + 58
    ensures |Schedule(events, w.first, w.last, RegularDwell, EventDwell)|
         == 118 + 10 * EventPartTotal(events, w.first, w.last)
  {
    ScheduleLength(events, w.first, w.last, RegularDwell, EventDwell);
  }

  /** Why the script stops before it has any frames. */
  datatype Failure = BadFileName(error: ParseError) | NoFiles

  /** The parsed file list, the registry built from it and the frame list. */
  datatype Animation = Animation(files: seq<FileInfo>, registry: map<Key, Snapshot>, frames: seq<Frame>)

  /**
   * Lines 14-78 without the plotting set-up. `paths` is the sorted file list,
   * `load` reads one leaderboard file and `events` is the event table.
   */
  method Prepare(paths: seq<string>, load: string -> Snapshot, events: seq<Event>)
    returns (r: Result<Animation, Failure>)
    ensures r.Err? && r.error.BadFileName? <==> ParseAll(ParseFileName, paths).Err?
    ensures r.Err? && r.error.BadFileName? ==> r.error.error == ParseAll(ParseFileName, paths).error
    ensures r.Err? && r.error.NoFiles? <==> paths == []
    ensures r.Ok? ==> ParseAll(ParseFileName, paths) == Ok(r.value.files)
    ensures r.Ok? ==> forall i :: 0 <= i < |r.value.files| ==> IsValid(r.value.files[i].date)
    ensures r.Ok? ==> r.value.registry.Keys == set i | 0 <= i < |r.value.files| :: KeyOf(r.value.files[i])
    ensures r.Ok? ==> forall i :: 0 <= i < |r.value.files| && LastWithKey(r.value.files, i)
                        ==> r.value.registry[KeyOf(r.value.files[i])] == load(r.value.files[i].path)
    ensures r.Ok? ==> SeasonWindow(r.value.files).Some?
                      && r.value.frames == Schedule(events, SeasonWindow(r.value.files).value.first,
                                                    SeasonWindow(r.value.files).value.last,
                                                    RegularDwell, EventDwell)
  {
    var parsed := ParseFiles(paths);
    if parsed.Err? {
      return Err(BadFileName(parsed.error));
    }
    var infos := parsed.value;
    assert forall i :: 0 <= i < |infos| ==> ParseFileName(paths[i]) == Ok(infos[i]);
    var registry := BuildRegistry(infos, load);
    var window := SeasonWindow(infos);
    if window.None? {
      return Err(NoFiles);
    }
    var frames := BuildFrames(events, window.value.first, window.value.last, RegularDwell, EventDwell);
    r := Ok(Animation(infos, registry, frames));
  }

  /** A frame in the list is an event frame only for a part the table lists that day. */
  lemma EventFrameListed(events: seq<Event>, start: int, end: int, regular: nat, event: nat, i: nat)
    requires i < |Schedule(events, start, end, regular, event)|
    requires Schedule(events, start, end, regular, event)[i].isEvent
    ensures exists e :: e in events && e.date == Schedule(events, start, end, regular, event)[i].date
                         && e.part == Schedule(events, start, end, regular, event)[i].slot
  {
    var frames := Schedule(events, start, end, regular, event);
    var f := frames[i];
    assert f in multiset(frames);
    ScheduleMultiplicity(events, start, end, regular, event, f);
    assert f.slot in PartSet(events, f.date);
  }

  /**
   * The keys `update` looks up first along the list are parts `0 ..
   * regular - 1` of the frame's day: a snapshot with a higher part is shown
   * only when carried forward.
   */
  lemma LookupKeysInRange(events: seq<Event>, start: int, end: int, regular: nat, event: nat, i: nat)
    requires regular > 0 && i < |Schedule(events, start, end, regular, event)|
    ensures LookupKey(Schedule(events, start, end, regular, event)[i]).date
            == Schedule(events, start, end, regular, event)[i].date
    ensures 0 <= LookupKey(Schedule(events, start, end, regular, event)[i]).part < regular
  {
    var f := Schedule(events, start, end, regular, event)[i];
    assert f in multiset(Schedule(events, start, end, regular, event));
    ScheduleMultiplicity(events, start, end, regular, event, f);
  }

  /** Every event frame in the list gets a caption, and no regular frame does. */
  lemma CaptionsOnEventFrames(events: seq<Event>, start: int, end: int, regular: nat, event: nat)
    ensures forall i :: 0 <= i < |Schedule(events, start, end, regular, event)| ==>
              (Caption(events, Schedule(events, start, end, regular, event)[i]).Some?
               <==> Schedule(events, start, end, regular, event)[i].isEvent)
  {
    var frames := Schedule(events, start, end, regular, event);
    forall i | 0 <= i < |frames|
      ensures Caption(events, frames[i]).Some? <==> frames[i].isEvent
    {
      if frames[i].isEvent {
        EventFrameListed(events, start, end, regular, event, i);
        var e :| e in events && e.date == frames[i].date && e.part == frames[i].slot;
        var k :| 0 <= k < |events| && events[k] == e;
        assert Lists(events, k, frames[i].date, frames[i].slot);
      }
    }
  }

  /** The first frame is timestep 0 of the first day. */
  lemma FirstFrame(events: seq<Event>, start: int, end: int, regular: nat, event: nat)
    requires start <= end && regular > 0
    ensures |Schedule(events, start, end, regular, event)| > 0
    ensures Schedule(events, start, end, regular, event)[0] == Frame(start, 0, false)
  {
    var day := DayFrames(events, start, regular, event);
    ScheduleAtDay(events, start, start, end, regular, event);
    assert Schedule(events, start, start - 1, regular, event) == [];
    RegularFramesAt(start, regular);
    assert day[0] == RegularFrames(start, regular)[0];
  }

  /**
   * `update` succeeds on every frame exactly when some snapshot is dated on
   * or before the first day; otherwise it already fails on the first frame.
   */
  lemma EveryFrameRenders(reg: map<Key, Snapshot>, events: seq<Event>, start: int, end: int, regular: nat, event: nat)
    requires start <= end && regular > 0
    ensures (forall i :: 0 <= i < |Schedule(events, start, end, regular, event)| ==>
               Update(reg, events, Schedule(events, start, end, regular, event)[i]).Ok?)
            <==> exists k :: k in reg && k.date <= start
  {
    var frames := Schedule(events, start, end, regular, event);
    FirstFrame(events, start, end, regular, event);
    ScheduleDates(events, start, end, regular, event);
    if exists k :: k in reg && k.date <= start {
      var k :| k in reg && k.date <= start;
      forall i | 0 <= i < |frames|
        ensures Update(reg, events, frames[i]).Ok?
      {
        assert k.date <= frames[i].date;
      }
    } else {
      assert Update(reg, events, frames[0]).Err?;
    }
  }
}
