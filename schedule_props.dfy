/**
 * What the frame list built by the scheduler looks like: how many frames
 * there are, that days come in order, how each day's frames are laid out,
 * how often each frame occurs, and the order of a day's event parts.
 */
module ScheduleProperties {
  import opened Scheduler

  // ---- Distinct parts in first-appearance order ----

  lemma FirstIndexUnique(s: seq<int>, x: int, i: nat)
    requires i < |s| && s[i] == x && x !in s[..i]
    ensures FirstIndex(s, x) == i
  {
    var f := FirstIndex(s, x);
    assert forall k :: 0 <= k < i ==> s[..i][k] == s[k];
    assert forall k :: 0 <= k < f ==> s[..f][k] == s[k];
  }

  lemma FirstIndexInPrefix(s: seq<int>, x: int)
    requires |s| > 0 && x in s[..|s| - 1]
    ensures FirstIndex(s, x) == FirstIndex(s[..|s| - 1], x)
  {
    var p := s[..|s| - 1];
    var i := FirstIndex(p, x);
    assert s[..i] == p[..i];
    FirstIndexUnique(s, x, i);
  }

  /**
   * `unique()` lists the distinct values in the order of their first
   * appearance in its input.
   */
  lemma {:induction false} UniqueFirstAppearanceOrder(s: seq<int>, i: nat, j: nat)
    requires i < j < |Unique(s)|
    ensures Unique(s)[i] in s && Unique(s)[j] in s
    ensures FirstIndex(s, Unique(s)[i]) < FirstIndex(s, Unique(s)[j])
  {
    UniqueMembers(s);
    var p := s[..|s| - 1];
    UniqueMembers(p);
    var last := s[|s| - 1];
    var u, u' := Unique(s), Unique(p);
    if j < |u'| {
      assert u[i] == u'[i] && u[j] == u'[j];
      UniqueFirstAppearanceOrder(p, i, j);
      FirstIndexInPrefix(s, u[i]);
      FirstIndexInPrefix(s, u[j]);
    } else {
      assert last !in u' && u == u' + [last] && j == |u'| && u[j] == last;
      assert last !in p;
      assert s[..|s| - 1] == p;
      FirstIndexUnique(s, last, |s| - 1);
      assert u[i] == u'[i] && u'[i] in p;
      FirstIndexInPrefix(s, u[i]);
    }
  }

  /** The index of the first event row listing day `d` and part `p`. */
  function FirstRow(events: seq<Event>, d: int, p: int): (i: nat)
    requires exists i :: 0 <= i < |events| && Lists(events, i, d, p)
    ensures i < |events| && Lists(events, i, d, p)
    ensures forall j :: 0 <= j < i ==> !Lists(events, j, d, p)
  {
    if Lists(events, 0, d, p) then 0
    else
      assert exists i :: 0 <= i < |events[1..]| && Lists(events[1..], i, d, p) by {
        var k :| 0 <= k < |events| && Lists(events, k, d, p);
        assert Lists(events, k, d, p);
        assert k != 0 && events[1..][k - 1] == events[k];
        assert Lists(events[1..], k - 1, d, p);
      }
      var i := FirstRow(events[1..], d, p);
      assert forall j :: 1 <= j <= i ==> (Lists(events, j, d, p) <==> Lists(events[1..], j - 1, d, p));
      1 + i
  }

  /** Every part selected for day `d` comes from an event row dated `d`. */
  lemma {:induction false} PartsOnListed(events: seq<Event>, d: int, p: int)
    requires p in PartsOn(events, d)
    ensures exists i :: 0 <= i < |events| && Lists(events, i, d, p)
  {
    if !Lists(events, 0, d, p) {
      PartsOnListed(events[1..], d, p);
      var i :| 0 <= i < |events[1..]| && Lists(events[1..], i, d, p);
      assert Lists(events, i + 1, d, p);
    }
  }

  /** Every part an event row dated `d` lists is selected for day `d`. */
  lemma ListedInPartsOn(events: seq<Event>, d: int, p: int, i: nat)
    requires i < |events| && Lists(events, i, d, p)
    ensures p in PartsOn(events, d)
  {
    PartsOnMembers(events, d);
    assert events[i] in events;
  }

  /** Dropping a head that differs from `x` moves the first `x` one place forward. */
  lemma FirstIndexCons(y: int, s: seq<int>, x: int)
    requires x in s && y != x
    ensures FirstIndex([y] + s, x) == 1 + FirstIndex(s, x)
  {
    assert ([y] + s)[1..] == s;
  }

  /**
   * The selection for day `d` keeps the event table's row order: of two
   * parts, the one whose first row comes earlier comes earlier.
   */
  lemma {:induction false} PartsOnOrder(events: seq<Event>, d: int, p: int, q: int)
    requires p != q
    requires exists i :: 0 <= i < |events| && Lists(events, i, d, p)
    requires exists i :: 0 <= i < |events| && Lists(events, i, d, q)
    ensures p in PartsOn(events, d) && q in PartsOn(events, d)
    ensures FirstIndex(PartsOn(events, d), p) < FirstIndex(PartsOn(events, d), q)
        <==> FirstRow(events, d, p) < FirstRow(events, d, q)
  {
    var ip := FirstRow(events, d, p);
    var iq := FirstRow(events, d, q);
    ListedInPartsOn(events, d, p, ip);
    ListedInPartsOn(events, d, q, iq);
    var s := PartsOn(events, d);
    var rest := events[1..];
    if Lists(events, 0, d, p) {
      assert s[0] == p && s[0] != q;
    } else if Lists(events, 0, d, q) {
      assert s[0] == q && s[0] != p;
    } else {
      assert Lists(rest, ip - 1, d, p) && Lists(rest, iq - 1, d, q);
      PartsOnOrder(rest, d, p, q);
      assert FirstRow(events, d, p) == 1 + FirstRow(rest, d, p);
      assert FirstRow(events, d, q) == 1 + FirstRow(rest, d, q);
      if events[0].date == d {
        FirstIndexCons(events[0].part, PartsOn(rest, d), p);
        FirstIndexCons(events[0].part, PartsOn(rest, d), q);
      }
    }
  }

  /**
   * The distinct parts of a day come in the order of their first row in the
   * event table.
   */
  lemma DayPartsInTableOrder(events: seq<Event>, d: int, i: nat, j: nat)
    requires i < j < |Unique(PartsOn(events, d))|
    ensures exists r :: 0 <= r < |events| && Lists(events, r, d, Unique(PartsOn(events, d))[i])
    ensures exists r :: 0 <= r < |events| && Lists(events, r, d, Unique(PartsOn(events, d))[j])
    ensures FirstRow(events, d, Unique(PartsOn(events, d))[i])
          < FirstRow(events, d, Unique(PartsOn(events, d))[j])
  {
    var s := PartsOn(events, d);
    var u := Unique(s);
    UniqueFirstAppearanceOrder(s, i, j);
    PartsOnListed(events, d, u[i]);
    PartsOnListed(events, d, u[j]);
    PartsOnOrder(events, d, u[i], u[j]);
  }

  /** A sequence without repetitions has as many elements as its set. */
  lemma {:induction false} DistinctCardinality(s: seq<int>)
    requires Distinct(s)
    ensures |set x | x in s| == |s|
  {
    if s != [] {
      var p := s[..|s| - 1];
      assert Distinct(p);
      DistinctCardinality(p);
      assert s[|s| - 1] !in p;
      assert (set x | x in s) == (set x | x in p) + {s[|s| - 1]};
    }
  }

  /** A day has as many distinct event parts as the table lists for it. */
  lemma DistinctPartCount(events: seq<Event>, d: int)
    ensures |Unique(PartsOn(events, d))| == |PartSet(events, d)|
  {
    var u := Unique(PartsOn(events, d));
    UniqueMembers(PartsOn(events, d));
    PartsOnMembers(events, d);
    DistinctCardinality(u);
    assert (set x | x in u) == PartSet(events, d);
  }

  // ---- One day's frames ----

  lemma {:induction false} EventFramesAppend(d: int, a: seq<int>, b: seq<int>, n: nat)
    ensures EventFrames(d, a + b, n) == EventFrames(d, a, n) + EventFrames(d, b, n)
    decreases |b|
  {
    if b == [] {
      assert a + b == a;
    } else {
      var b' := b[..|b| - 1];
      assert (a + b)[..|a + b| - 1] == a + b';
      EventFramesAppend(d, a, b', n);
    }
  }

  lemma {:induction false} EventFramesLength(d: int, parts: seq<int>, n: nat)
    ensures |EventFrames(d, parts, n)| == |parts| * n
  {
    if parts != [] {
      EventFramesLength(d, parts[..|parts| - 1], n);
      assert |parts| * n == (|parts| - 1) * n + n;
    }
  }

  lemma SliceMiddle(a: seq<Frame>, b: seq<Frame>, c: seq<Frame>)
    ensures (a + b + c)[|a| .. |a| + |b|] == b
  {
  }

  /** Part `parts[k]` fills the `k`-th run of `n` consecutive event frames. */
  lemma EventFramesBlock(d: int, parts: seq<int>, n: nat, k: nat)
    requires k < |parts|
    ensures k * n + n <= |EventFrames(d, parts, n)|
    ensures EventFrames(d, parts, n)[k * n .. k * n + n] == Repeat(Frame(d, parts[k], true), n)
  {
    var front, back := parts[..k], parts[k + 1..];
    var run := Repeat(Frame(d, parts[k], true), n);
    assert parts == front + [parts[k]] + back;
    EventFramesAppend(d, front + [parts[k]], back, n);
    EventFramesAppend(d, front, [parts[k]], n);
    assert [parts[k]][..0] == [];
    assert EventFrames(d, [parts[k]], n) == run;
    EventFramesLength(d, front, n);
    assert |EventFrames(d, front, n)| == k * n;
    SliceMiddle(EventFrames(d, front, n), run, EventFrames(d, back, n));
  }

  lemma {:induction false} RepeatCount(x: Frame, n: nat, f: Frame)
    ensures multiset(Repeat(x, n))[f] == if f == x then n else 0
  {
    if n > 0 {
      RepeatCount(x, n - 1, f);
    }
  }

  lemma CountAppend(s: seq<Frame>, g: Frame, f: Frame)
    ensures multiset(s + [g])[f] == multiset(s)[f] + (if f == g then 1 else 0)
  {
    assert multiset(s + [g]) == multiset(s) + multiset{g};
  }

  lemma {:induction false} RegularCount(d: int, n: nat, f: Frame)
    ensures multiset(RegularFrames(d, n))[f] == if f.date == d && !f.isEvent && 0 <= f.slot < n then 1 else 0
  {
    if n > 0 {
      RegularCount(d, n - 1, f);
      var g := Frame(d, n - 1, false);
      CountAppend(RegularFrames(d, n - 1), g, f);
      assert f == g <==> f.date == d && !f.isEvent && f.slot == n - 1;
    }
  }

  lemma {:induction false} EventCount(d: int, parts: seq<int>, n: nat, f: Frame)
    requires Distinct(parts)
    ensures multiset(EventFrames(d, parts, n))[f] == if f.date == d && f.isEvent && f.slot in parts then n else 0
  {
    if parts != [] {
      var p := parts[..|parts| - 1];
      var last := parts[|parts| - 1];
      assert Distinct(p);
      assert last !in p;
      assert forall x :: x in parts <==> x in p || x == last;
      EventCount(d, p, n, f);
      RepeatCount(Frame(d, last, true), n, f);
    }
  }

  /** A day's frames: regular ones first, then a run per distinct event part. */
  lemma DayFramesLayout(events: seq<Event>, d: int, regular: nat, event: nat)
    ensures DayFrames(events, d, regular, event)
         == RegularFrames(d, regular) + EventFrames(d, Unique(PartsOn(events, d)), event)
  {
    if PartsOn(events, d) == [] {
      assert Unique(PartsOn(events, d)) == [];
    }
  }

  /** A day opens with its regular frames: frame `t` is timestep `t` for `t < regular`. */
  lemma DayRegularFirst(events: seq<Event>, d: int, regular: nat, event: nat)
    ensures regular <= |DayFrames(events, d, regular, event)|
    ensures forall t :: 0 <= t < regular ==> DayFrames(events, d, regular, event)[t] == Frame(d, t, false)
  {
    DayFramesLayout(events, d, regular, event);
    RegularFramesAt(d, regular);
  }

  /** The event table lists no part for day `d` exactly when it has no row dated `d`. */
  lemma {:induction false} PartsOnEmpty(events: seq<Event>, d: int)
    ensures PartsOn(events, d) == [] <==> PartSet(events, d) == {}
  {
    if events != [] {
      PartsOnEmpty(events[1..], d);
      if events[0].date == d {
        assert events[0].part in PartSet(events, d);
      } else {
        assert forall e :: e in events && e.date == d <==> e in events[1..] && e.date == d;
        assert PartSet(events, d) == PartSet(events[1..], d);
      }
    }
  }

  /** A day the event table does not list gets its regular frames only. */
  lemma QuietDay(events: seq<Event>, d: int, regular: nat, event: nat)
    requires PartSet(events, d) == {}
    ensures DayFrames(events, d, regular, event) == RegularFrames(d, regular)
  {
    PartsOnEmpty(events, d);
    assert RegularFrames(d, regular) + [] == RegularFrames(d, regular);
  }

  /** A day contributes `regular` frames plus `event` frames per distinct event part. */
  lemma DayFramesLength(events: seq<Event>, d: int, regular: nat, event: nat)
    ensures |DayFrames(events, d, regular, event)| == regular + |PartSet(events, d)| * event
  {
    DayFramesLayout(events, d, regular, event);
    DistinctPartCount(events, d);
    EventFramesLength(d, Unique(PartsOn(events, d)), event);
  }

  /**
   * The `k`-th distinct part of day `d` occupies the `event` consecutive
   * frames that start `regular + k * event` frames into the day.
   */
  lemma DayEventBlock(events: seq<Event>, d: int, regular: nat, event: nat, k: nat)
    requires k < |Unique(PartsOn(events, d))|
    ensures regular + k * event + event <= |DayFrames(events, d, regular, event)|
    ensures DayFrames(events, d, regular, event)[regular + k * event .. regular + k * event + event]
         == Repeat(Frame(d, Unique(PartsOn(events, d))[k], true), event)
  {
    DayFramesLayout(events, d, regular, event);
    RunAfterRegular(d, Unique(PartsOn(events, d)), regular, event, k);
  }

  lemma RunAfterRegular(d: int, parts: seq<int>, regular: nat, event: nat, k: nat)
    requires k < |parts|
    ensures regular + k * event + event <= |RegularFrames(d, regular) + EventFrames(d, parts, event)|
    ensures (RegularFrames(d, regular) + EventFrames(d, parts, event))[regular + k * event .. regular + k * event + event]
         == Repeat(Frame(d, parts[k], true), event)
  {
    EventFramesBlock(d, parts, event, k);
    var lo := k * event;
    SliceShift(RegularFrames(d, regular), EventFrames(d, parts, event), lo, lo + event);
  }

  lemma SliceShift(a: seq<Frame>, b: seq<Frame>, i: nat, j: nat)
    requires i <= j <= |b|
    ensures (a + b)[|a| + i .. |a| + j] == b[i..j]
  {
  }

  lemma DayCount(events: seq<Event>, d: int, regular: nat, event: nat, f: Frame)
    ensures multiset(DayFrames(events, d, regular, event))[f]
         == if f.date != d then 0
            else if f.isEvent then (if f.slot in PartSet(events, d) then event else 0)
            else if 0 <= f.slot < regular then 1 else 0
  {
    DayFramesLayout(events, d, regular, event);
    RegularCount(d, regular, f);
    UniqueMembers(PartsOn(events, d));
    PartsOnMembers(events, d);
    EventCount(d, Unique(PartsOn(events, d)), event, f);
  }

  lemma {:induction false} DayFramesDate(events: seq<Event>, d: int, regular: nat, event: nat)
    ensures forall f :: f in DayFrames(events, d, regular, event) ==> f.date == d
  {
    forall f | f in DayFrames(events, d, regular, event)
      ensures f.date == d
    {
      DayCount(events, d, regular, event, f);
    }
  }

  // ---- The whole schedule ----

  /** Every frame of block `day(x)` is dated `x`. */
  ghost predicate DatedBlocks(day: int -> seq<Frame>) {
    forall x, i :: 0 <= i < |day(x)| ==> day(x)[i].date == x
  }

  lemma DaysDated(events: seq<Event>, regular: nat, event: nat)
    ensures DatedBlocks(Days(events, regular, event))
  {
    var day := Days(events, regular, event);
    forall x, i | 0 <= i < |day(x)|
      ensures day(x)[i].date == x
    {
      DayFramesDate(events, x, regular, event);
      assert day(x)[i] in DayFrames(events, x, regular, event);
    }
  }

  /** Sum over the days `start .. end` of the number of distinct event parts. */
  function EventPartTotal(events: seq<Event>, start: int, end: int): nat
    decreases end - start
  {
    if start > end then 0 else EventPartTotal(events, start, end - 1) + |PartSet(events, end)|
  }

  /** Frames per day, summed over the days `start .. end`. */
  function DaySum(events: seq<Event>, start: int, end: int, regular: nat, event: nat): nat
    decreases end - start
  {
    if start > end then 0
    else DaySum(events, start, end - 1, regular, event) + regular + |PartSet(events, end)| * event
  }

  lemma {:induction false} ConcatDaySum(day: int -> seq<Frame>, events: seq<Event>, start: int, end: int, regular: nat, event: nat)
    requires forall x :: start <= x <= end ==> |day(x)| == regular + |PartSet(events, x)| * event
    ensures |Concat(day, start, end)| == DaySum(events, start, end, regular, event)
    decreases end - start
  {
    if start <= end {
      ConcatDaySum(day, events, start, end - 1, regular, event);
    }
  }

  lemma {:induction false} DaySumClosedForm(events: seq<Event>, start: int, end: int, regular: nat, event: nat)
    requires start <= end
    ensures DaySum(events, start, end, regular, event)
         == (end - start + 1) * regular + EventPartTotal(events, start, end) * event
    decreases end - start
  {
    var parts := |PartSet(events, end)|;
    var earlier := EventPartTotal(events, start, end - 1);
    if start == end {
      assert DaySum(events, start, end - 1, regular, event) == 0 && earlier == 0;
    } else {
      DaySumClosedForm(events, start, end - 1, regular, event);
      var n := end - start;
      assert DaySum(events, start, end - 1, regular, event) == n * regular + earlier * event;
      assert (n + 1) * regular == n * regular + regular;
      assert (earlier + parts) * event == earlier * event + parts * event;
    }
  }

  /**
   * The number of frames: `regular` per day of the range plus `event` per
   * distinct event part of each day; none when the range is empty.
   */
  lemma ScheduleLength(events: seq<Event>, start: int, end: int, regular: nat, event: nat)
    ensures start > end ==> Schedule(events, start, end, regular, event) == []
    ensures start <= end ==> |Schedule(events, start, end, regular, event)|
                             == (end - start + 1) * regular + EventPartTotal(events, start, end) * event
  {
    var day := Days(events, regular, event);
    forall x | start <= x <= end
      ensures |day(x)| == regular + |PartSet(events, x)| * event
    {
      DayFramesLength(events, x, regular, event);
    }
    ConcatDaySum(day, events, start, end, regular, event);
    if start <= end {
      DaySumClosedForm(events, start, end, regular, event);
    }
  }

  lemma {:induction false} ConcatDates(day: int -> seq<Frame>, start: int, end: int)
    requires DatedBlocks(day)
    ensures forall i :: 0 <= i < |Concat(day, start, end)| ==> start <= Concat(day, start, end)[i].date <= end
    ensures forall i, j :: 0 <= i <= j < |Concat(day, start, end)|
              ==> Concat(day, start, end)[i].date <= Concat(day, start, end)[j].date
    decreases end - start
  {
    if start <= end {
      var rest, block := Concat(day, start, end - 1), day(end);
      ConcatDates(day, start, end - 1);
      var all := rest + block;
      assert forall i :: 0 <= i < |rest| ==> all[i] == rest[i];
      assert forall i :: |rest| <= i < |all| ==> all[i] == block[i - |rest|];
    }
  }

  /** Every frame lies in the range, and dates never decrease along the list. */
  lemma ScheduleDates(events: seq<Event>, start: int, end: int, regular: nat, event: nat)
    ensures forall i :: 0 <= i < |Schedule(events, start, end, regular, event)|
              ==> start <= Schedule(events, start, end, regular, event)[i].date <= end
    ensures forall i, j :: 0 <= i <= j < |Schedule(events, start, end, regular, event)|
              ==> Schedule(events, start, end, regular, event)[i].date
                  <= Schedule(events, start, end, regular, event)[j].date
  {
    DaysDated(events, regular, event);
    ConcatDates(Days(events, regular, event), start, end);
  }

  lemma {:induction false} ConcatAtDay(day: int -> seq<Frame>, start: int, d: int, end: int)
    requires start <= d <= end
    ensures Concat(day, start, end) == Concat(day, start, d - 1) + day(d) + Concat(day, d + 1, end)
    decreases end - d
  {
    if d < end {
      ConcatAtDay(day, start, d, end - 1);
      assert Concat(day, d + 1, end) == Concat(day, d + 1, end - 1) + day(end);
    } else {
      assert Concat(day, d + 1, end) == [];
    }
  }

  /** The list is the earlier days, then day `d`'s frames, then the later days. */
  lemma ScheduleAtDay(events: seq<Event>, start: int, d: int, end: int, regular: nat, event: nat)
    requires start <= d <= end
    ensures Schedule(events, start, end, regular, event)
         == Schedule(events, start, d - 1, regular, event) + DayFrames(events, d, regular, event)
            + Schedule(events, d + 1, end, regular, event)
  {
    ConcatAtDay(Days(events, regular, event), start, d, end);
  }

  lemma {:induction false} ConcatCount(day: int -> seq<Frame>, start: int, end: int, f: Frame)
    requires DatedBlocks(day)
    ensures multiset(Concat(day, start, end))[f]
         == if start <= f.date <= end then multiset(day(f.date))[f] else 0
    decreases end - start
  {
    if start <= end {
      ConcatCount(day, start, end - 1, f);
      assert multiset(Concat(day, start, end)) == multiset(Concat(day, start, end - 1)) + multiset(day(end));
      if f.date != end {
        forall i | 0 <= i < |day(end)|
          ensures day(end)[i] != f
        {
        }
        assert f !in day(end);
      }
    }
  }

  /**
   * How often each frame occurs: a regular frame `(d, t)` once for each
   * timestep `t` of each day in range, an event frame `(d, p)` `event` times
   * for each part `p` the table lists for a day in range, anything else never.
   */
  lemma ScheduleMultiplicity(events: seq<Event>, start: int, end: int, regular: nat, event: nat, f: Frame)
    ensures multiset(Schedule(events, start, end, regular, event))[f]
         == if f.date < start || end < f.date then 0
            else if f.isEvent then (if f.slot in PartSet(events, f.date) then event else 0)
            else if 0 <= f.slot < regular then 1 else 0
  {
    DaysDated(events, regular, event);
    ConcatCount(Days(events, regular, event), start, end, f);
    DayCount(events, f.date, regular, event, f);
  }
}
