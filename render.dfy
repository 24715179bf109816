/**
 * What `update` computes for one frame: the snapshot it shows (the exact
 * key, or the greatest key dated on or before the frame), its rows in
 * ascending order of Total, and the event caption of an event frame.
 */
module Render {
  import opened Wrappers
  import opened Scheduler
  import opened Registry

  /**
   * The key `update` looks up first: part 0 of the frame's day for an event
   * frame, and the timestep as the part for a regular frame.
   */
  function LookupKey(f: Frame): Key {
    Key(f.date, if f.isEvent then 0 else f.slot)
  }

  /**
   * The key whose snapshot frame `f` shows, or `None` when `df` stays unbound.
   * A hit on the lookup key wins; otherwise the greatest key, in the order
   * of `(date, part)` tuples, among those dated on or before the frame.
   */
  function ResolveKey(reg: map<Key, Snapshot>, f: Frame): (r: Option<Key>)
    ensures r.Some? <==> exists k :: k in reg && k.date <= f.date
    ensures LookupKey(f) in reg ==> r == Some(LookupKey(f))
    ensures r.Some? ==> r.value in reg && r.value.date <= f.date
    ensures LookupKey(f) !in reg && r.Some? ==>
              forall k :: k in reg && k.date <= f.date ==> KeyLe(k, r.value)
  {
    var key := LookupKey(f);
    if key in reg then Some(key)
    else
      var earlier := set k | k in reg.Keys && k.date <= f.date;
      assert forall k :: k in reg && k.date <= f.date ==> k in earlier;
      if earlier == {} then None else Some(Greatest(earlier))
  }

  /** The key found for an event frame does not depend on the frame's part. */
  lemma EventKeyIgnoresPart(reg: map<Key, Snapshot>, f: Frame, g: Frame)
    requires f.isEvent && g.isEvent && f.date == g.date
    ensures ResolveKey(reg, f) == ResolveKey(reg, g)
  {
    assert LookupKey(f) == LookupKey(g);
  }

  /**
   * Without an exact hit, the day shown is the latest day on or before the
   * frame that has a snapshot, and of that day the greatest part.
   */
  lemma CarryForward(reg: map<Key, Snapshot>, f: Frame)
    requires LookupKey(f) !in reg
    requires ResolveKey(reg, f).Some?
    ensures forall k :: k in reg && k.date <= f.date ==> k.date <= ResolveKey(reg, f).value.date
    ensures forall k :: k in reg && k.date == ResolveKey(reg, f).value.date
              ==> k.part <= ResolveKey(reg, f).value.part
  {
    var m := ResolveKey(reg, f).value;
    assert forall k :: k in reg && k.date <= f.date ==> KeyLe(k, m);
  }

  predicate SortedByTotal(rows: Snapshot) {
    forall i, j :: 0 <= i < j < |rows| ==> rows[i].total <= rows[j].total
  }

  /** Places `x` into `rows`, which is sorted, before the first row with a greater Total. */
  function Insert(x: Row, rows: Snapshot): (r: Snapshot)
    requires SortedByTotal(rows)
    ensures SortedByTotal(r)
    ensures |r| == |rows| + 1 && (r[0] == x || (rows != [] && r[0] == rows[0]))
  {
    if rows == [] then [x]
    else if x.total <= rows[0].total then
      [x] + rows
    else
      var rest := Insert(x, rows[1..]);
      assert rows[0].total <= rest[0].total;
      [rows[0]] + rest
  }

  /** Inserting adds `x` and keeps every other row. */
  lemma {:induction false} InsertPermutes(x: Row, rows: Snapshot)
    requires SortedByTotal(rows)
    ensures multiset(Insert(x, rows)) == multiset(rows) + multiset{x}
  {
    if rows != [] && x.total > rows[0].total {
      InsertPermutes(x, rows[1..]);
      assert rows == [rows[0]] + rows[1..];
    }
  }

  /** `df.sort_values(by='Total', ascending=True)`. */
  function SortByTotal(rows: Snapshot): (r: Snapshot)
    ensures SortedByTotal(r)
    ensures multiset(r) == multiset(rows)
  {
    if rows == [] then []
    else
      var sorted := SortByTotal(rows[1..]);
      InsertPermutes(rows[0], sorted);
      assert rows == [rows[0]] + rows[1..];
      Insert(rows[0], sorted)
  }

  /** The description of the first event row listing day `d` and part `p`. */
  function FirstDescription(events: seq<Event>, d: int, p: int): (r: Option<string>)
    ensures r.None? <==> forall i :: 0 <= i < |events| ==> !Lists(events, i, d, p)
    ensures r.Some? ==> exists i :: 0 <= i < |events| && Lists(events, i, d, p)
                          && events[i].text == r.value
                          && forall j :: 0 <= j < i ==> !Lists(events, j, d, p)
  {
    if events == [] then None
    else if events[0].date == d && events[0].part == p then
      assert Lists(events, 0, d, p);
      Some(events[0].text)
    else
      var r := FirstDescription(events[1..], d, p);
      assert forall i :: 1 <= i < |events| ==> (Lists(events, i, d, p) <==> Lists(events[1..], i - 1, d, p));
      if r.Some? then
        var i :| 0 <= i < |events[1..]| && Lists(events[1..], i, d, p)
                 && events[1..][i].text == r.value
                 && forall j :: 0 <= j < i ==> !Lists(events[1..], j, d, p);
        assert Lists(events, i + 1, d, p);
        r
      else r
  }

  /**
   * The caption of frame `f`: only an event frame has one, and only when a
   * row lists its day and part; it is the text of the first such row.
   */
  function Caption(events: seq<Event>, f: Frame): (r: Option<string>)
    ensures r.Some? <==> f.isEvent && exists i :: 0 <= i < |events| && Lists(events, i, f.date, f.slot)
    ensures r.Some? ==> exists i :: 0 <= i < |events| && Lists(events, i, f.date, f.slot)
                          && events[i].text == r.value
                          && forall j :: 0 <= j < i ==> !Lists(events, j, f.date, f.slot)
  {
    if f.isEvent then FirstDescription(events, f.date, f.slot) else None
  }

  /** What one call of `update` puts on screen. */
  datatype View = View(day: int, rows: Snapshot, caption: Option<string>)

  /** `update` fails when no snapshot is dated on or before the frame. */
  datatype RenderError = UnboundSnapshot

  /** The data side of `update` for frame `f`. */
  function Update(reg: map<Key, Snapshot>, events: seq<Event>, f: Frame): (r: Result<View, RenderError>)
    ensures r.Err? <==> forall k :: k in reg ==> k.date > f.date
    ensures r.Ok? ==> r.value.day == f.date && r.value.caption == Caption(events, f)
    ensures r.Ok? ==> SortedByTotal(r.value.rows)
                      && multiset(r.value.rows) == multiset(reg[ResolveKey(reg, f).value])
  {
    match ResolveKey(reg, f)
    case None => Err(UnboundSnapshot)
    case Some(k) => Ok(View(f.date, SortByTotal(reg[k]), Caption(events, f)))
  }
}
