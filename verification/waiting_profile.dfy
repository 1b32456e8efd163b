/** Waiting profiles (src/jbarge/WaitingProfile.java). When a barge plans its
    rotation, every terminal on its itinerary tells it, for every possible
    arrival moment, how long it will have to wait at most before handling can
    start. The terminal derives this from its appointment book: the gaps
    between planned barges in which the requesting barge fits ("start
    intervals") and, from them, a step function of arrival time. */
module WaitingProfiles {
  import opened Wrappers
  import opened AppointmentBook

  /** Integer.MAX_VALUE, which the Java uses as "no end". */
  const IntMax: int := 0x7fff_ffff

  /** A start interval: the book position at which the barge would be
      inserted (one-based, as in the Java), and the earliest and latest
      moments at which its handling could start there. */
  datatype Interval = Interval(insertionPoint: nat, start: int, end: int)

  /** A step of the profile: from `time` on, the waiting time is at most
      `maxWait` (decreasing with the arrival moment, see RawWait). */
  datatype Entry = Entry(time: int, maxWait: int)

  datatype Profile = Profile(currentTime: int, intervals: seq<Interval>, entries: seq<Entry>)

  /** How slack is added to a quoted waiting time: a constant, a factor
      derived from the size of the book, or (any other configured name)
      none of the two. */
  datatype Slack = Constant(slack: int) | Factor(denominator: int) | Unrecognised

  // ---------------------------------------------------------------------------
  // Start intervals

  /** The candidate interval for inserting the barge at book position `i`:
      it can start once the barge before it is done (or now, at position 0)
      and must start `h` before the next barge's latest starting time (or
      never has to, at the end of the book). */
  function Candidate(book: Book, now: int, h: int, i: nat): Interval
    requires i <= |book|
  {
    var start := if i == 0 then now else book[i - 1].edt;
    var end := if i == |book| then IntMax else book[i].lst - h;
    Interval(i + 1, start, end)
  }

  /** A candidate is kept when it is not empty and does not start in the past. */
  predicate Feasible(iv: Interval, now: int) {
    iv.start <= iv.end && iv.start >= now
  }

  /** The candidates at positions `i`..|book| that are kept, in position order. */
  function StartIntervalsFrom(book: Book, now: int, h: int, i: nat): (ivs: seq<Interval>)
    requires i <= |book| + 1
    ensures forall k | 0 <= k < |ivs| ::
              i + 1 <= ivs[k].insertionPoint <= |book| + 1
              && ivs[k] == Candidate(book, now, h, ivs[k].insertionPoint - 1)
              && Feasible(ivs[k], now)
    ensures forall k, l | 0 <= k < l < |ivs| :: ivs[k].insertionPoint < ivs[l].insertionPoint
    decreases |book| + 1 - i
  {
    if i > |book| then []
    else
      var c := Candidate(book, now, h, i);
      var rest := StartIntervalsFrom(book, now, h, i + 1);
      if Feasible(c, now) then [c] + rest else rest
  }

  /** Nothing feasible is lost: every kept candidate at a position from `i`
      on is among the start intervals. */
  lemma {:induction false} StartIntervalsComplete(book: Book, now: int, h: int, i: nat, j: nat)
    requires i <= j <= |book| && Feasible(Candidate(book, now, h, j), now)
    ensures Candidate(book, now, h, j) in StartIntervalsFrom(book, now, h, i)
    decreases j - i
  {
    if i < j {
      StartIntervalsComplete(book, now, h, i + 1, j);
    }
  }

  /** Each interval but the last ends no later than the next one starts. */
  predicate Disjoint(ivs: seq<Interval>) {
    forall k | 0 <= k < |ivs| - 1 :: ivs[k].end <= ivs[k + 1].start
  }

  /** Each end of `r` is the end in `ivs` or, for all but the last, the
      start of the next interval. */
  predicate ClippedOnly(ivs: seq<Interval>, r: seq<Interval>)
    requires |ivs| == |r|
  {
    forall k | 0 <= k < |r| :: r[k].end == ivs[k].end || (k + 1 < |r| && r[k].end == ivs[k + 1].start)
  }

  /** Interval `k` after the disjointness pass: cut back to the start of
      the next interval when it overlaps it. */
  function ClipAt(ivs: seq<Interval>, k: nat): (c: Interval)
    requires k < |ivs|
    ensures c.insertionPoint == ivs[k].insertionPoint && c.start == ivs[k].start
    ensures c.end <= ivs[k].end
    ensures k + 1 < |ivs| ==> c.end <= ivs[k + 1].start
    ensures c.end == ivs[k].end || (k + 1 < |ivs| && c.end == ivs[k + 1].start)
  {
    if k + 1 < |ivs| && ivs[k].end > ivs[k + 1].start then ivs[k].(end := ivs[k + 1].start) else ivs[k]
  }

  /** The disjointness pass over all intervals. */
  function Clip(ivs: seq<Interval>): (r: seq<Interval>)
    ensures |r| == |ivs|
    ensures forall k | 0 <= k < |r| :: r[k] == ClipAt(ivs, k)
    ensures Disjoint(r)
  {
    seq(|ivs|, k requires 0 <= k < |ivs| => ClipAt(ivs, k))
  }

  /** Clipping only ever shortens an interval, and it changes its end only
      to the next interval's start. */
  lemma ClipEnds(ivs: seq<Interval>)
    ensures forall k | 0 <= k < |ivs| :: Clip(ivs)[k].start == ivs[k].start && Clip(ivs)[k].end <= ivs[k].end
    ensures ClippedOnly(ivs, Clip(ivs))
    ensures |ivs| > 0 ==> Clip(ivs)[|ivs| - 1] == ivs[|ivs| - 1]
  {
    var r := Clip(ivs);
    forall k | 0 <= k < |ivs|
      ensures r[k].start == ivs[k].start && r[k].end <= ivs[k].end
      ensures r[k].end == ivs[k].end || (k + 1 < |r| && r[k].end == ivs[k + 1].start)
    {
      assert r[k] == ClipAt(ivs, k);
    }
  }

  /** Clipping intervals that are already disjoint changes nothing; in
      particular clipping twice is clipping once. */
  lemma ClipIdempotent(ivs: seq<Interval>)
    ensures Disjoint(ivs) ==> Clip(ivs) == ivs
    ensures Clip(Clip(ivs)) == Clip(ivs)
  {
    var r := Clip(ivs);
    var rr := Clip(r);
    assert forall k | 0 <= k < |rr| :: rr[k] == r[k];
    if Disjoint(ivs) {
      assert forall k | 0 <= k < |r| :: r[k] == ivs[k];
    }
  }

  /** The start intervals of a terminal other than the port entrance. */
  function StartIntervals(book: Book, now: int, h: int): seq<Interval> {
    Clip(StartIntervalsFrom(book, now, h, 0))
  }

  /** The steps of the profile: the first begins now, each later one where
      the previous interval ends, and each lasts until the next interval
      starts. */
  function Entries(now: int, ivs: seq<Interval>): (es: seq<Entry>)
    ensures |es| == |ivs|
    ensures forall k | 0 <= k < |es| :: es[k].time == if k == 0 then now else ivs[k - 1].end
    ensures forall k | 0 <= k < |es| :: es[k].time + es[k].maxWait == ivs[k].start
  {
    seq(|ivs|, k requires 0 <= k < |ivs| =>
      var time := if k == 0 then now else ivs[k - 1].end;
      Entry(time, ivs[k].start - time))
  }

  /** The fixed profile of the port entrance (t0): one step from time 0
      that never makes a barge wait. */
  function PortProfile(now: int): Profile {
    Profile(now, [Interval(0, 0, 0)], [Entry(0, 0)])
  }

  /** The constructor: the port entrance (t0) never makes a barge wait and
      gets a fixed one-step profile; any other terminal derives it from its
      book and the barge's handling time `h` there. */
  function NewProfile(book: Book, now: int, h: int, atPort: bool): (p: Profile)
    ensures p.currentTime == now
    ensures |p.entries| == |p.intervals|
    ensures atPort ==> p.entries == [Entry(0, 0)] && p.intervals == [Interval(0, 0, 0)]
  {
    if atPort then PortProfile(now)
    else
      var ivs := StartIntervals(book, now, h);
      Profile(now, ivs, Entries(now, ivs))
  }

  /** Shape of a terminal's profile drawn up at `now` from a book of
      `bookSize` appointments: one step per interval, at most one interval
      per insertion point, the first step begins now, no step quotes a
      negative waiting time, and waiting out a step brings the barge exactly
      to the start of its interval. */
  predicate Shaped(p: Profile, now: int, bookSize: nat) {
    && p.currentTime == now
    && |p.entries| == |p.intervals| <= bookSize + 1
    && (|p.entries| > 0 ==> p.entries[0].time == now)
    && (forall k | 0 <= k < |p.entries| :: p.entries[k].maxWait >= 0)
    && (forall k | 0 <= k < |p.entries| :: p.entries[k].time + p.entries[k].maxWait == p.intervals[k].start)
  }

  /** A terminal's profile is never the port entrance's: its intervals are
      numbered by insertion points from 1 on. */
  lemma TerminalProfileNotPort(book: Book, now: int, h: int)
    ensures NewProfile(book, now, h, false) != PortProfile(now)
  {
    var raw := StartIntervalsFrom(book, now, h, 0);
    var p := NewProfile(book, now, h, false);
    assert p.intervals == Clip(raw);
    if |raw| > 0 {
      assert p.intervals[0] == ClipAt(raw, 0);
      assert p.intervals[0].insertionPoint >= 1;
    }
  }

  /** Every terminal's profile has that shape. */
  lemma ProfileShape(book: Book, now: int, h: int)
    ensures Shaped(NewProfile(book, now, h, false), now, |book|)
  {
    var raw := StartIntervalsFrom(book, now, h, 0);
    StartIntervalsBound(book, now, h, 0);
    if |raw| > 0 {
      assert Feasible(raw[0], now);
    }
    ClippedEntriesNonNegative(now, raw);
    var p := NewProfile(book, now, h, false);
    assert p.intervals == Clip(raw) && p.entries == Entries(now, Clip(raw));
  }

  lemma ClippedEntriesNonNegative(now: int, raw: seq<Interval>)
    requires |raw| > 0 ==> raw[0].start >= now
    ensures forall k | 0 <= k < |raw| :: Entries(now, Clip(raw))[k].maxWait >= 0
  {
    forall k | 0 <= k < |raw| ensures Entries(now, Clip(raw))[k].maxWait >= 0 {
      if k > 0 {
        ClippedEntryNonNegative(now, raw, k);
      }
    }
  }

  lemma ClippedEntryNonNegative(now: int, raw: seq<Interval>, k: nat)
    requires 0 < k < |raw|
    ensures Entries(now, Clip(raw))[k].maxWait >= 0
  {
    var ivs := Clip(raw);
    assert Disjoint(ivs);
    assert ivs[k - 1].end <= ivs[k].start;
  }

  lemma {:induction false} StartIntervalsBound(book: Book, now: int, h: int, i: nat)
    requires i <= |book| + 1
    ensures |StartIntervalsFrom(book, now, h, i)| <= |book| + 1 - i
    decreases |book| + 1 - i
  {
    if i <= |book| {
      StartIntervalsBound(book, now, h, i + 1);
    }
  }

  // ---------------------------------------------------------------------------
  // Looking up a waiting time

  /** The step that applies at arrival moment `t`: the last one that has
      begun by then, found by scanning from the end. */
  function FindEntry(es: seq<Entry>, t: int): (r: Option<nat>)
    ensures r.Some? ==> (r.value < |es| && es[r.value].time <= t
                         && forall j | r.value < j < |es| :: es[j].time > t)
    ensures r.None? ==> forall j | 0 <= j < |es| :: es[j].time > t
  {
    if |es| == 0 then None
    else if es[|es| - 1].time <= t then Some(|es| - 1)
    else FindEntry(es[..|es| - 1], t)
  }

  /** The waiting time of step `k` for arrival `t`, before slack: none at
      the exact moment a later step begins, otherwise what is left of the
      step's waiting time, never negative. */
  function RawWait(es: seq<Entry>, k: nat, t: int): (w: int)
    requires k < |es|
    ensures w >= 0
    ensures es[k].time <= t ==> w <= es[k].maxWait || es[k].maxWait < 0
  {
    var mwt := if k > 0 && t == es[k].time then 0 else es[k].maxWait + es[k].time - t;
    if mwt < 0 then 0 else mwt
  }

  /** Java's int division, which truncates toward zero. */
  function TruncDiv(a: int, b: int): (q: int)
    requires b != 0
    ensures var rem := a - q * b;
            && (if rem < 0 then -rem else rem) < (if b < 0 then -b else b)
            && (rem == 0 || (rem < 0 <==> a < 0))
  {
    if a >= 0 then
      (if b > 0 then a / b else -(a / -b))
    else
      (if b > 0 then -((-a) / b) else (-a) / (-b))
  }

  lemma TruncDivSmall(a: nat, b: int)
    requires b != 0 && a < (if b < 0 then -b else b)
    ensures TruncDiv(a, b) == 0
  {
    if b > 0 {
      assert a / b == 0;
    } else {
      assert a / -b == 0;
    }
  }

  /** getMaxWaitingTime: the waiting time quoted for arrival moment `t`,
      with slack. `liveBookSize` is the number of appointments in the
      terminal's book at the moment of the query, which the Factor method
      reads. An arrival before every step gets 0, without slack. */
  function MaxWaitingTime(p: Profile, t: int, slack: Slack, liveBookSize: nat): (w: int)
    requires slack.Factor? ==> slack.denominator != 0
    ensures FindEntry(p.entries, t).None? || slack.Unrecognised? ==> w == 0
    ensures slack.Constant? && FindEntry(p.entries, t).Some? ==>
              w == RawWait(p.entries, FindEntry(p.entries, t).value, t) + slack.slack
  {
    match FindEntry(p.entries, t)
    case None => 0
    case Some(k) =>
      var mwt := RawWait(p.entries, k, t);
      match slack
      case Constant(s) => mwt + s
      case Factor(d) => mwt + TruncDiv(liveBookSize, d) * mwt
      case Unrecognised => 0
  }

  /** Slack settings that can only lengthen a quoted waiting time. */
  predicate NonNegativeSlack(slack: Slack) {
    match slack
    case Constant(s) => s >= 0
    case Factor(d) => d > 0
    case Unrecognised => true
  }

  /** With such slack no waiting time is negative. */
  lemma MaxWaitingTimeNonNegative(p: Profile, t: int, slack: Slack, liveBookSize: nat)
    requires slack.Factor? ==> slack.denominator != 0
    ensures NonNegativeSlack(slack) ==> MaxWaitingTime(p, t, slack, liveBookSize) >= 0
  {
    if slack.Factor? && slack.denominator > 0 && FindEntry(p.entries, t).Some? {
      var raw := RawWait(p.entries, FindEntry(p.entries, t).value, t);
      var q := TruncDiv(liveBookSize, slack.denominator);
      assert q >= 0;
      assert q * raw >= 0;
    }
  }

  // ---------------------------------------------------------------------------
  // What the quoted waiting time means

  /** Except at the exact moment a later step begins, the waiting time
      before slack is the time left until the start interval of the step
      opens: a barge arriving then can start handling right away if it
      waits that long. */
  lemma WaitUntilIntervalStart(book: Book, now: int, h: int, t: int)
    ensures var p := NewProfile(book, now, h, false);
            FindEntry(p.entries, t).Some? ==>
              var k := FindEntry(p.entries, t).value;
              !(k > 0 && t == p.entries[k].time) ==>
                RawWait(p.entries, k, t) == if p.intervals[k].start - t < 0 then 0 else p.intervals[k].start - t
  {
    ProfileShape(book, now, h);
  }

  /** Within one step, of two arrivals after the step's start (or any two in
      the first step), the later never waits longer. The exact moment a
      later step begins is the exception: the wait drops to 0 there and
      jumps back afterwards. */
  lemma RawWaitNonIncreasing(es: seq<Entry>, k: nat, t1: int, t2: int)
    requires k < |es| && t1 <= t2
    requires k == 0 || es[k].time < t1
    ensures RawWait(es, k, t2) <= RawWait(es, k, t1)
  {
  }

  /** At the exact moment a later step begins, the quoted wait is 0 before
      slack. */
  lemma RawWaitAtStepStart(es: seq<Entry>, k: nat)
    requires 0 < k < |es|
    ensures RawWait(es, k, es[k].time) == 0
  {
  }

  /** The port entrance never makes a barge wait: from time 0 on it quotes
      the constant slack alone (or nothing under the Factor method), before
      time 0 nothing, whatever its book and however large it is. */
  lemma PortWait(book: Book, now: int, h: int, t: int, slack: Slack, liveBookSize: nat)
    requires slack.Factor? ==> slack.denominator != 0
    ensures MaxWaitingTime(NewProfile(book, now, h, true), t, slack, liveBookSize)
         == if t >= 0 && slack.Constant? then slack.slack else 0
  {
    var p := NewProfile(book, now, h, true);
    if t >= 0 {
      assert FindEntry(p.entries, t) == Some(0);
      assert RawWait(p.entries, 0, t) == 0;
    } else {
      assert FindEntry(p.entries, t) == None;
    }
  }

  /** An empty book leaves one start interval, from now on and without end,
      so a barge arriving at or after now never waits beyond the slack. */
  lemma EmptyBookProfile(now: int, h: int, t: int, slack: Slack, liveBookSize: nat)
    requires slack.Factor? ==> slack.denominator != 0
    requires now <= t && now <= IntMax
    ensures NewProfile([], now, h, false) == Profile(now, [Interval(1, now, IntMax)], [Entry(now, 0)])
    ensures MaxWaitingTime(NewProfile([], now, h, false), t, slack, liveBookSize)
         == if slack.Constant? then slack.slack else 0
  {
    assert StartIntervalsFrom([], now, h, 0) == [Interval(1, now, IntMax)];
    var p := NewProfile([], now, h, false);
    assert FindEntry(p.entries, t) == Some(0);
  }

  /** Under the Factor method the raw wait is multiplied by one plus the
      (truncated) quotient of the live book size and the denominator; a book
      smaller than the denominator adds no slack. */
  lemma FactorSlack(p: Profile, t: int, d: int, liveBookSize: nat)
    requires d != 0
    requires FindEntry(p.entries, t).Some?
    ensures var raw := RawWait(p.entries, FindEntry(p.entries, t).value, t);
            && MaxWaitingTime(p, t, Factor(d), liveBookSize) == raw * (1 + TruncDiv(liveBookSize, d))
            && (liveBookSize < (if d < 0 then -d else d) ==> MaxWaitingTime(p, t, Factor(d), liveBookSize) == raw)
  {
    var raw := RawWait(p.entries, FindEntry(p.entries, t).value, t);
    var q := TruncDiv(liveBookSize, d);
    assert MaxWaitingTime(p, t, Factor(d), liveBookSize) == raw + q * raw;
    assert raw + q * raw == raw * (1 + q);
    if liveBookSize < (if d < 0 then -d else d) {
      TruncDivSmall(liveBookSize, d);
    }
  }

  /** A concrete profile: one barge booked with LST 10 and handling 5 (so
      EDT 15), and a requesting barge needing 3. It can start between 0 and
      7, or from 15 on; arriving at 8 it waits 7, at 3 or at 7 not at all. */
  lemma ProfileExample()
    ensures var book := [Appointment(1, 0, 10, 10, 5, 15)];
            var p := NewProfile(book, 0, 3, false);
            && p.intervals == [Interval(1, 0, 7), Interval(2, 15, IntMax)]
            && p.entries == [Entry(0, 0), Entry(7, 8)]
            && MaxWaitingTime(p, 3, Constant(0), 1) == 0
            && MaxWaitingTime(p, 7, Constant(0), 1) == 0
            && MaxWaitingTime(p, 8, Constant(0), 1) == 7
  {
    var book := [Appointment(1, 0, 10, 10, 5, 15)];
    assert StartIntervalsFrom(book, 0, 3, 2) == [];
    assert StartIntervalsFrom(book, 0, 3, 1) == [Interval(2, 15, IntMax)];
    assert StartIntervalsFrom(book, 0, 3, 0) == [Interval(1, 0, 7), Interval(2, 15, IntMax)];
    var p := NewProfile(book, 0, 3, false);
    assert p.intervals == [Interval(1, 0, 7), Interval(2, 15, IntMax)];
    assert p.entries == [Entry(0, 0), Entry(7, 8)];
    assert FindEntry(p.entries, 3) == Some(0);
    assert FindEntry(p.entries, 7) == Some(1);
    assert FindEntry(p.entries, 8) == Some(1);
  }

  /** Every candidate can be filtered out (the barge before the only gap
      finished in the past and the gap now is too short), leaving an empty
      profile; the lookup then falls through and quotes 0, without slack. */
  lemma EmptyProfileExample(t: int, slack: Slack, liveBookSize: nat)
    requires slack.Factor? ==> slack.denominator != 0
    ensures var book := [Appointment(1, 0, 5, 5, 3, 8)];
            var p := NewProfile(book, 10, 2, false);
            && p.intervals == [] && p.entries == []
            && MaxWaitingTime(p, t, slack, liveBookSize) == 0
  {
    var book := [Appointment(1, 0, 5, 5, 3, 8)];
    assert StartIntervalsFrom(book, 10, 2, 2) == [];
    assert StartIntervalsFrom(book, 10, 2, 1) == [];
    assert StartIntervalsFrom(book, 10, 2, 0) == [];
  }
}
