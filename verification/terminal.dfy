/** The terminal agent (src/jbarge/Terminal.java): its appointment book, the
    queue of barges waiting there, its IDLE/HANDLING state and the number of
    barges in handling, with the event handlers written as state transitions
    that return the new terminal and the events they schedule. */
module Terminals {
  import opened Events
  import opened ListQueries
  import opened Wrappers
  import opened AppointmentBook

  datatype TerminalState = Handling | Idle

  /** The port-wide terminal logic: first come first served, or by
      appointment. */
  datatype Logic = Unreserved | Reserved

  /** `arrivals` is the actual arrival time of each barge that arrived here. */
  datatype Terminal = Terminal(id: TerminalId, book: Book, queue: seq<BargeId>, state: TerminalState,
                               numHandling: int, arrivals: map<BargeId, int>)

  /** The handling time a barge needs at this terminal. */
  type HandlingTimes = BargeId -> int

  function NewTerminal(id: TerminalId): (t: Terminal)
    ensures t.id == id && |t.book| == 0 && |t.queue| == 0 && t.state == Idle && t.numHandling == 0
  {
    Terminal(id, [], [], Idle, 0, map[])
  }

  /** What the handlers rely on: the book has one entry per barge, and every
      queued barge has an actual arrival time. The book need not be sorted by
      LST: t0's book is not after a barge's second registration there. */
  predicate Consistent(t: Terminal) {
    && DistinctBarges(t.book)
    && (forall b | b in t.queue :: b in t.arrivals)
  }

  /** Queue.remove: drop the first occurrence. */
  function RemoveFirst(q: seq<BargeId>, b: BargeId): (r: seq<BargeId>)
    ensures b !in q ==> r == q
    ensures b in q ==> |r| == |q| - 1
    ensures multiset(r) == multiset(q) - multiset{b}
  {
    if |q| == 0 then []
    else if q[0] == b then
      assert q == [q[0]] + q[1..];
      q[1..]
    else
      assert q == [q[0]] + q[1..];
      [q[0]] + RemoveFirst(q[1..], b)
  }

  /** The event that starts handling a barge at the end of the tick. */
  function StartEvent(t: Terminal, b: BargeId, time: int): Event {
    Event(time, LastPriority, HandleBarge(t.id, b))
  }

  // ---------------------------------------------------------------------------
  // Admission (Reserved logic)

  /** The barges checkIfHandleBarge can be asked about: with one appointment
      the book is not consulted; otherwise the barge's appointment and its
      actual arrival are read. */
  predicate Askable(t: Terminal, b: BargeId) {
    |t.book| == 1 || (Has(t.book, b) && b in t.arrivals)
  }

  /** The admission rules, one disjunct per rule: the only appointment; the
      head of the book on time; the head of the book late, if it finishes by
      the second appointment's LST; another barge, if it finishes by the
      head's LST or the head's LST has already passed. */
  predicate Admissible(t: Terminal, b: BargeId, time: int, h: HandlingTimes)
    requires Askable(t, b)
  {
    || |t.book| == 1
    || (var head := t.book[0];
        var lat := t.book[Position(t.book, b)].lat;
        var end := time + h(b);
        || (b == head.barge && lat >= t.arrivals[b])
        || (b == head.barge && lat < t.arrivals[b] && end <= t.book[1].lst)
        || (b != head.barge && end <= head.lst)
        || (b != head.barge && time > head.lst))
  }

  /** The rejection rule: the head of the book, late, that would not finish
      by the second appointment's LST. */
  predicate Rejectable(t: Terminal, b: BargeId, time: int, h: HandlingTimes)
    requires Askable(t, b)
  {
    && |t.book| != 1
    && b == t.book[0].barge
    && t.book[Position(t.book, b)].lat < t.arrivals[b]
    && time + h(b) > t.book[1].lst
  }

  /** The result of checkIfHandleBarge: the terminal afterwards, the two
      flags of the Java's result array, and the scheduled events. */
  datatype Check = Check(terminal: Terminal, handled: bool, rejected: bool, events: seq<Event>)

  /** checkIfHandleBarge. A rejected barge leaves the queue and the book; the
      re-planning the Java starts at that point is left to the caller, which
      sees the `rejected` flag. */
  function CheckIfHandleBarge(t: Terminal, b: BargeId, time: int, h: HandlingTimes): (c: Check)
    requires Askable(t, b)
    ensures !(c.handled && c.rejected)
    ensures c.handled <==> Admissible(t, b, time, h)
    ensures c.rejected <==> Rejectable(t, b, time, h)
    ensures c.events == if c.handled then [StartEvent(t, b, time)] else []
    ensures c.handled ==> c.terminal.book == t.book && c.terminal.queue == t.queue
    ensures c.handled && |t.book| != 1 ==> c.terminal.state == Handling
    ensures c.rejected ==> c.terminal.book == Remove(t.book, b) && c.terminal.queue == RemoveFirst(t.queue, b)
    ensures c.rejected ==> c.terminal.state == t.state
    ensures !c.handled && !c.rejected ==> c.terminal == t
    ensures c.terminal.id == t.id && c.terminal.numHandling == t.numHandling && c.terminal.arrivals == t.arrivals
  {
    if |t.book| == 1 then
      Check(t, true, false, [StartEvent(t, b, time)])
    else
      var expectedEnd := time + h(b);
      var lat := t.book[Position(t.book, b)].lat;
      var actualArrive := t.arrivals[b];
      var head := t.book[0].barge;
      if b == head && lat >= actualArrive then
        Check(t.(state := Handling), true, false, [StartEvent(t, b, time)])
      else if b == head && lat <= actualArrive then
        if expectedEnd <= t.book[1].lst then
          Check(t.(state := Handling), true, false, [StartEvent(t, b, time)])
        else
          Check(t.(queue := RemoveFirst(t.queue, b), book := Remove(t.book, b)), false, true, [])
      else if (b != head && expectedEnd <= t.book[0].lst) || (b != head && time > t.book[0].lst) then
        Check(t.(state := Handling), true, false, [StartEvent(t, b, time)])
      else
        Check(t, false, false, [])
  }

  /** The entry a barge admitted out of turn must not push back: the head of
      the book, or for the head itself the second entry. */
  function NextOther(t: Terminal, b: BargeId): Appointment
    requires 2 <= |t.book|
  {
    if b == t.book[0].barge then t.book[1] else t.book[0]
  }

  /** Deadline safety of admission: a barge admitted against a book of more
      than one appointment is the punctual head of the book, or it finishes
      by the LST of the next appointment of another barge, or that LST has
      already passed. */
  lemma AdmissionRespectsNext(t: Terminal, b: BargeId, time: int, h: HandlingTimes)
    requires Askable(t, b) && |t.book| != 1
    requires CheckIfHandleBarge(t, b, time, h).handled
    ensures 2 <= |t.book|
    ensures || (b == t.book[0].barge && t.book[Position(t.book, b)].lat >= t.arrivals[b])
            || time + h(b) <= NextOther(t, b).lst
            || (b != t.book[0].barge && time > NextOther(t, b).lst)
  {
  }

  /** A punctual head of the book, in a book of several, is always admitted. */
  lemma PunctualHeadAdmitted(t: Terminal, time: int, h: HandlingTimes)
    requires 2 <= |t.book| && t.book[0].barge in t.arrivals
    requires t.book[0].lat >= t.arrivals[t.book[0].barge]
    ensures Askable(t, t.book[0].barge)
    ensures CheckIfHandleBarge(t, t.book[0].barge, time, h).handled
  {
    assert Keys(t.book)[0] == t.book[0].barge;
  }

  // ---------------------------------------------------------------------------
  // The scan over the book

  /** The result of a scan: the terminal afterwards, the admitted barge if
      any, the barges rejected on the way, and the scheduled events. */
  datatype Scan = Scan(terminal: Terminal, admitted: Option<BargeId>, rejected: seq<BargeId>, events: seq<Event>)

  /** The reference answer of a scan in which nobody is rejected: the first
      queued barge of `bs` the rules admit. */
  function FirstAdmissible(t: Terminal, bs: seq<BargeId>, time: int, h: HandlingTimes): (r: Option<BargeId>)
    requires forall k | 0 <= k < |bs| && bs[k] in t.queue :: Askable(t, bs[k])
    ensures r.Some? ==> r.value in bs && r.value in t.queue && Admissible(t, r.value, time, h)
    ensures r.None? ==> forall k | 0 <= k < |bs| && bs[k] in t.queue :: !Admissible(t, bs[k], time, h)
  {
    if |bs| == 0 then None
    else if bs[0] in t.queue && Admissible(t, bs[0], time, h) then Some(bs[0])
    else FirstAdmissible(t, bs[1..], time, h)
  }

  /** No barge of `bs` waiting in the queue would be rejected. */
  predicate NoneRejectable(t: Terminal, bs: seq<BargeId>, time: int, h: HandlingTimes)
    requires forall k | 0 <= k < |bs| && bs[k] in t.queue :: Askable(t, bs[k])
  {
    forall k | 0 <= k < |bs| && bs[k] in t.queue :: !Rejectable(t, bs[k], time, h)
  }

  /** The loop of checkNextPossibleBargeToHandle over a snapshot `bs` of the
      book: ask about every queued barge in book order and stop at the first
      one admitted, which puts the terminal in HANDLING. */
  function ScanBook(t: Terminal, bs: seq<BargeId>, time: int, h: HandlingTimes): (r: Scan)
    requires Distinct(bs) && forall k | 0 <= k < |bs| :: Has(t.book, bs[k])
    requires Consistent(t)
    decreases |bs|
  {
    if |bs| == 0 then Scan(t, None, [], [])
    else
      var b := bs[0];
      assert Keys(t.book)[Position(t.book, b)] == b;
      if b !in t.queue then
        ScanBook(t, bs[1..], time, h)
      else
        assert b in t.arrivals;
        var c := CheckIfHandleBarge(t, b, time, h);
        if c.handled then
          Scan(c.terminal.(state := Handling), Some(b), [], c.events)
        else if c.rejected then
          RejectedStillConsistent(t, bs, time, h);
          var r := ScanBook(c.terminal, bs[1..], time, h);
          Scan(r.terminal, r.admitted, [b] + r.rejected, r.events)
        else
          ScanBook(t, bs[1..], time, h)
  }

  /** After the first barge of the snapshot is rejected, the rest of the
      snapshot can still be scanned. */
  lemma RejectedStillConsistent(t: Terminal, bs: seq<BargeId>, time: int, h: HandlingTimes)
    requires Distinct(bs) && (forall k | 0 <= k < |bs| :: Has(t.book, bs[k])) && Consistent(t)
    requires |bs| > 0 && bs[0] in t.queue && Askable(t, bs[0]) && CheckIfHandleBarge(t, bs[0], time, h).rejected
    ensures var t1 := CheckIfHandleBarge(t, bs[0], time, h).terminal;
            Consistent(t1) && Distinct(bs[1..]) && forall k | 0 <= k < |bs[1..]| :: Has(t1.book, bs[1..][k])
  {
    var t1 := CheckIfHandleBarge(t, bs[0], time, h).terminal;
    forall x | x in t1.queue ensures x in t1.arrivals {
      assert x in multiset(t1.queue);
    }
    forall k | 0 <= k < |bs[1..]| ensures Has(t1.book, bs[1..][k]) {
      assert bs[1..][k] == bs[k + 1] != bs[0];
    }
  }

  /** One step of the scan past a rejected barge. */
  lemma ScanRejects(t: Terminal, bs: seq<BargeId>, time: int, h: HandlingTimes)
    requires Distinct(bs) && (forall k | 0 <= k < |bs| :: Has(t.book, bs[k])) && Consistent(t)
    requires |bs| > 0 && bs[0] in t.queue && Askable(t, bs[0]) && CheckIfHandleBarge(t, bs[0], time, h).rejected
    requires var t1 := CheckIfHandleBarge(t, bs[0], time, h).terminal;
             Consistent(t1) && Distinct(bs[1..]) && forall k | 0 <= k < |bs[1..]| :: Has(t1.book, bs[1..][k])
    ensures var t1 := CheckIfHandleBarge(t, bs[0], time, h).terminal;
            var r := ScanBook(t1, bs[1..], time, h);
            ScanBook(t, bs, time, h) == Scan(r.terminal, r.admitted, [bs[0]] + r.rejected, r.events)
  {
  }

  /** One step of the scan past a barge that is not queued, or is queued but
      neither admitted nor rejected. */
  lemma ScanSkips(t: Terminal, bs: seq<BargeId>, time: int, h: HandlingTimes)
    requires Distinct(bs) && (forall k | 0 <= k < |bs| :: Has(t.book, bs[k])) && Consistent(t)
    requires |bs| > 0
    requires bs[0] in t.queue ==> Askable(t, bs[0]) && CheckIfHandleBarge(t, bs[0], time, h) == Check(t, false, false, [])
    ensures Distinct(bs[1..]) && forall k | 0 <= k < |bs[1..]| :: Has(t.book, bs[1..][k])
    ensures ScanBook(t, bs, time, h) == ScanBook(t, bs[1..], time, h)
  {
    assert Keys(t.book)[Position(t.book, bs[0])] == bs[0];
  }

  /** A rejecting step takes the barge out of the queue, and nothing else. */
  lemma RejectShrinksQueue(t: Terminal, b: BargeId, time: int, h: HandlingTimes)
    requires Askable(t, b) && CheckIfHandleBarge(t, b, time, h).rejected
    ensures var q1 := CheckIfHandleBarge(t, b, time, h).terminal.queue;
            && multiset(q1) == multiset(t.queue) - multiset{b}
            && forall x | x in q1 :: x in t.queue
  {
    var q1 := CheckIfHandleBarge(t, b, time, h).terminal.queue;
    forall x | x in q1 ensures x in t.queue {
      assert x in multiset(q1);
    }
  }

  /** A scan keeps the terminal consistent, changes neither its identity, its
      handling count nor its arrival record, and schedules one start event
      exactly when it admits a barge. */
  lemma {:induction false} ScanFacts(t: Terminal, bs: seq<BargeId>, time: int, h: HandlingTimes)
    requires Distinct(bs) && (forall k | 0 <= k < |bs| :: Has(t.book, bs[k])) && Consistent(t)
    ensures var r := ScanBook(t, bs, time, h);
            && Consistent(r.terminal)
            && r.terminal.id == t.id && r.terminal.numHandling == t.numHandling && r.terminal.arrivals == t.arrivals
            && (r.admitted.None? ==> r.events == [] && r.terminal.state == t.state)
            && (r.admitted.Some? ==> r.events == [StartEvent(t, r.admitted.value, time)] && r.terminal.state == Handling)
    decreases |bs|
  {
    if |bs| > 0 {
      var b := bs[0];
      assert Keys(t.book)[Position(t.book, b)] == b;
      if b !in t.queue {
        ScanFacts(t, bs[1..], time, h);
      } else {
        var c := CheckIfHandleBarge(t, b, time, h);
        if c.rejected {
          var t1 := c.terminal;
          RejectedStillConsistent(t, bs, time, h);
          ScanRejects(t, bs, time, h);
          ScanFacts(t1, bs[1..], time, h);
        } else if !c.handled {
          ScanFacts(t, bs[1..], time, h);
        }
      }
    }
  }

  /** A scan only removes appointments, so a book sorted by LST stays
      sorted. */
  lemma {:induction false} ScanKeepsSorted(t: Terminal, bs: seq<BargeId>, time: int, h: HandlingTimes)
    requires Distinct(bs) && (forall k | 0 <= k < |bs| :: Has(t.book, bs[k])) && Consistent(t)
    ensures SortedByLst(t.book) ==> SortedByLst(ScanBook(t, bs, time, h).terminal.book)
    decreases |bs|
  {
    if |bs| > 0 {
      var b := bs[0];
      assert Keys(t.book)[Position(t.book, b)] == b;
      if b in t.queue && CheckIfHandleBarge(t, b, time, h).rejected {
        var t1 := CheckIfHandleBarge(t, b, time, h).terminal;
        RejectedStillConsistent(t, bs, time, h);
        ScanRejects(t, bs, time, h);
        ScanKeepsSorted(t1, bs[1..], time, h);
      } else if b !in t.queue || !CheckIfHandleBarge(t, b, time, h).handled {
        ScanSkips(t, bs, time, h);
        ScanKeepsSorted(t, bs[1..], time, h);
      }
    }
  }

  /** The barges a scan rejects, and only they, leave the book. */
  lemma {:induction false} ScanRemovesFromBook(t: Terminal, bs: seq<BargeId>, time: int, h: HandlingTimes)
    requires Distinct(bs) && (forall k | 0 <= k < |bs| :: Has(t.book, bs[k])) && Consistent(t)
    ensures var r := ScanBook(t, bs, time, h);
            forall c :: Has(r.terminal.book, c) <==> Has(t.book, c) && c !in r.rejected
    decreases |bs|
  {
    if |bs| > 0 {
      var b := bs[0];
      assert Keys(t.book)[Position(t.book, b)] == b;
      if b !in t.queue {
        ScanRemovesFromBook(t, bs[1..], time, h);
      } else {
        var c := CheckIfHandleBarge(t, b, time, h);
        if c.rejected {
          var t1 := c.terminal;
          RejectedStillConsistent(t, bs, time, h);
          ScanRejects(t, bs, time, h);
          ScanRemovesFromBook(t1, bs[1..], time, h);
          var r1 := ScanBook(t1, bs[1..], time, h);
          forall x ensures Has(r1.terminal.book, x) <==> Has(t.book, x) && x !in [b] + r1.rejected {
            assert x in [b] + r1.rejected <==> x == b || x in r1.rejected;
          }
        } else if !c.handled {
          ScanRemovesFromBook(t, bs[1..], time, h);
        }
      }
    }
  }

  /** The barges a scan rejects, and only they, leave the queue. */
  lemma {:induction false} ScanRemovesFromQueue(t: Terminal, bs: seq<BargeId>, time: int, h: HandlingTimes)
    requires Distinct(bs) && (forall k | 0 <= k < |bs| :: Has(t.book, bs[k])) && Consistent(t)
    ensures var r := ScanBook(t, bs, time, h);
            multiset(r.terminal.queue) == multiset(t.queue) - multiset(r.rejected)
    decreases |bs|
  {
    if |bs| > 0 {
      var b := bs[0];
      assert Keys(t.book)[Position(t.book, b)] == b;
      if b in t.queue && CheckIfHandleBarge(t, b, time, h).rejected {
        var t1 := CheckIfHandleBarge(t, b, time, h).terminal;
        RejectedStillConsistent(t, bs, time, h);
        ScanRejects(t, bs, time, h);
        RejectShrinksQueue(t, b, time, h);
        ScanRemovesFromQueue(t1, bs[1..], time, h);
        var r1 := ScanBook(t1, bs[1..], time, h);
        assert multiset(t.queue) - multiset([b] + r1.rejected)
            == multiset(t.queue) - multiset{b} - multiset(r1.rejected);
      } else if b !in t.queue || !CheckIfHandleBarge(t, b, time, h).handled {
        ScanSkips(t, bs, time, h);
        ScanRemovesFromQueue(t, bs[1..], time, h);
      }
    }
  }

  /** The barges a scan admits or rejects are queued barges of the
      snapshot. */
  lemma {:induction false} ScanFromSnapshot(t: Terminal, bs: seq<BargeId>, time: int, h: HandlingTimes)
    requires Distinct(bs) && (forall k | 0 <= k < |bs| :: Has(t.book, bs[k])) && Consistent(t)
    ensures var r := ScanBook(t, bs, time, h);
            && (r.admitted.Some? ==> r.admitted.value in bs && r.admitted.value in t.queue)
            && (forall x | x in r.rejected :: x in bs && x in t.queue)
    decreases |bs|
  {
    if |bs| > 0 {
      var b := bs[0];
      assert Keys(t.book)[Position(t.book, b)] == b;
      assert forall x | x in bs[1..] :: x in bs;
      if b in t.queue && CheckIfHandleBarge(t, b, time, h).rejected {
        var t1 := CheckIfHandleBarge(t, b, time, h).terminal;
        RejectedStillConsistent(t, bs, time, h);
        ScanRejects(t, bs, time, h);
        RejectShrinksQueue(t, b, time, h);
        ScanFromSnapshot(t1, bs[1..], time, h);
      } else if b !in t.queue || !CheckIfHandleBarge(t, b, time, h).handled {
        ScanSkips(t, bs, time, h);
        ScanFromSnapshot(t, bs[1..], time, h);
      }
    }
  }

  /** When no queued barge of the snapshot would be rejected, the scan
      rejects nobody and admits the first queued barge the rules admit. */
  lemma {:induction false} ScanFindsFirst(t: Terminal, bs: seq<BargeId>, time: int, h: HandlingTimes)
    requires Distinct(bs) && (forall k | 0 <= k < |bs| :: Has(t.book, bs[k])) && Consistent(t)
    requires NoneRejectable(t, bs, time, h)
    ensures ScanBook(t, bs, time, h).rejected == []
    ensures ScanBook(t, bs, time, h).admitted == FirstAdmissible(t, bs, time, h)
    decreases |bs|
  {
    if |bs| > 0 {
      var b := bs[0];
      assert Keys(t.book)[Position(t.book, b)] == b;
      assert NoneRejectable(t, bs[1..], time, h) by {
        forall k | 0 <= k < |bs[1..]| && bs[1..][k] in t.queue ensures !Rejectable(t, bs[1..][k], time, h) {
          assert bs[1..][k] == bs[k + 1];
        }
      }
      if b in t.queue {
        assert !Rejectable(t, b, time, h);
      }
      ScanFindsFirst(t, bs[1..], time, h);
    }
  }

  /** The result of an event handler: the terminal afterwards, whether a barge
      was admitted, the barges rejected (each of which re-plans its rotation),
      and the scheduled events. */
  datatype Outcome = Outcome(terminal: Terminal, found: bool, rejected: seq<BargeId>, events: seq<Event>)

  /** checkNextPossibleBargeToHandle: with an empty queue the terminal turns
      IDLE; otherwise the book is scanned in order. */
  function CheckNext(t: Terminal, time: int, h: HandlingTimes): (o: Outcome)
    requires Consistent(t)
    ensures Consistent(o.terminal)
    ensures o.terminal.id == t.id && o.terminal.numHandling == t.numHandling && o.terminal.arrivals == t.arrivals
    ensures |t.queue| == 0 ==> o == Outcome(t.(state := Idle), false, [], [])
    ensures o.found ==> o.terminal.state == Handling && |o.events| == 1
    ensures o.found ==> exists b | b in t.queue && Has(t.book, b) :: o.events == [StartEvent(t, b, time)]
    ensures !o.found ==> o.events == [] && (|t.queue| > 0 ==> o.terminal.state == t.state)
    ensures forall c :: Has(o.terminal.book, c) <==> Has(t.book, c) && c !in o.rejected
    ensures multiset(o.terminal.queue) == multiset(t.queue) - multiset(o.rejected)
    ensures forall x | x in o.rejected :: x in t.queue && Has(t.book, x)
    ensures SortedByLst(t.book) ==> SortedByLst(o.terminal.book)
  {
    if |t.queue| == 0 then Outcome(t.(state := Idle), false, [], [])
    else
      var bs := Keys(t.book);
      assert forall k | 0 <= k < |bs| :: Has(t.book, bs[k]);
      ScanFacts(t, bs, time, h);
      ScanRemovesFromBook(t, bs, time, h);
      ScanRemovesFromQueue(t, bs, time, h);
      ScanFromSnapshot(t, bs, time, h);
      ScanKeepsSorted(t, bs, time, h);
      var r := ScanBook(t, bs, time, h);
      if r.admitted.Some? then
        assert Has(t.book, r.admitted.value);
        Outcome(r.terminal.(state := Handling), true, r.rejected, r.events)
      else
        Outcome(r.terminal, false, r.rejected, r.events)
  }

  /** When no queued barge would be rejected, the scan admits the first
      queued barge in book order that the rules admit, and none if there is
      none. */
  lemma CheckNextAdmitsFirst(t: Terminal, time: int, h: HandlingTimes)
    requires Consistent(t) && |t.queue| > 0
    requires NoneRejectable(t, Keys(t.book), time, h)
    ensures var o := CheckNext(t, time, h);
            && o.rejected == []
            && o.terminal.book == t.book
            && (o.found <==> FirstAdmissible(t, Keys(t.book), time, h).Some?)
            && (o.found ==> o.events == [StartEvent(t, FirstAdmissible(t, Keys(t.book), time, h).value, time)])
  {
    var bs := Keys(t.book);
    assert forall k | 0 <= k < |bs| :: Has(t.book, bs[k]);
    ScanFindsFirst(t, bs, time, h);
    ScanFacts(t, bs, time, h);
    NoRejectionSameBook(t, bs, time, h);
  }

  /** A scan that rejects nobody leaves the book as it was. */
  lemma {:induction false} NoRejectionSameBook(t: Terminal, bs: seq<BargeId>, time: int, h: HandlingTimes)
    requires Distinct(bs) && (forall k | 0 <= k < |bs| :: Has(t.book, bs[k])) && Consistent(t)
    requires ScanBook(t, bs, time, h).rejected == []
    ensures ScanBook(t, bs, time, h).terminal.book == t.book
    ensures ScanBook(t, bs, time, h).terminal.queue == t.queue
    decreases |bs|
  {
    if |bs| > 0 {
      var b := bs[0];
      assert Keys(t.book)[Position(t.book, b)] == b;
      if b !in t.queue {
        NoRejectionSameBook(t, bs[1..], time, h);
      } else {
        var c := CheckIfHandleBarge(t, b, time, h);
        if !c.handled && !c.rejected {
          NoRejectionSameBook(t, bs[1..], time, h);
        }
      }
    }
  }

  // ---------------------------------------------------------------------------
  // Event handlers

  /** The Reserved logic at an IDLE terminal when barge `b` arrives: ask the
      admission rules about `b` and, unless it is admitted, scan the book. */
  function AdmitOnArrival(t: Terminal, b: BargeId, time: int, h: HandlingTimes): (o: Outcome)
    requires Consistent(t) && Askable(t, b)
    ensures Consistent(o.terminal)
    ensures o.terminal.arrivals == t.arrivals && o.terminal.numHandling == t.numHandling
    ensures Admissible(t, b, time, h) ==> o.found && o.events == [StartEvent(t, b, time)] && o.rejected == []
    ensures Rejectable(t, b, time, h) ==> |o.rejected| >= 1 && o.rejected[0] == b
    ensures forall c :: Has(o.terminal.book, c) <==> Has(t.book, c) && c !in o.rejected
    ensures multiset(o.terminal.queue) == multiset(t.queue) - multiset(o.rejected)
    ensures SortedByLst(t.book) ==> SortedByLst(o.terminal.book)
  {
    var c := CheckIfHandleBarge(t, b, time, h);
    if c.handled then Outcome(c.terminal, true, [], c.events)
    else ScanAfterCheck(t, b, time, h)
  }

  /** The rest of AdmitOnArrival once `b` is not admitted: the rejected `b`
      heads the rejected barges, then the book is scanned. */
  function ScanAfterCheck(t: Terminal, b: BargeId, time: int, h: HandlingTimes): (o: Outcome)
    requires Consistent(t) && Askable(t, b) && !CheckIfHandleBarge(t, b, time, h).handled
    ensures Consistent(o.terminal)
    ensures o.terminal.arrivals == t.arrivals && o.terminal.numHandling == t.numHandling
    ensures Rejectable(t, b, time, h) ==> |o.rejected| >= 1 && o.rejected[0] == b
    ensures forall c :: Has(o.terminal.book, c) <==> Has(t.book, c) && c !in o.rejected
    ensures multiset(o.terminal.queue) == multiset(t.queue) - multiset(o.rejected)
    ensures SortedByLst(t.book) ==> SortedByLst(o.terminal.book)
  {
    var c := CheckIfHandleBarge(t, b, time, h);
    if c.rejected then
      RejectThenScan(t, b, time, h);
      var n := CheckNext(c.terminal, time, h);
      Outcome(n.terminal, n.found, [b] + n.rejected, n.events)
    else
      var n := CheckNext(t, time, h);
      Outcome(n.terminal, n.found, n.rejected, n.events)
  }

  /** Rejecting the arriving barge and then scanning the book: the book and
      the queue lose the arriving barge and the barges the scan rejects. */
  lemma RejectThenScan(t: Terminal, b: BargeId, time: int, h: HandlingTimes)
    requires Consistent(t) && Askable(t, b) && CheckIfHandleBarge(t, b, time, h).rejected
    ensures var t1 := CheckIfHandleBarge(t, b, time, h).terminal;
            && Consistent(t1)
            && var n := CheckNext(t1, time, h);
               && (forall x :: Has(n.terminal.book, x) <==> Has(t.book, x) && x !in [b] + n.rejected)
               && multiset(n.terminal.queue) == multiset(t.queue) - multiset([b] + n.rejected)
  {
    var t1 := CheckIfHandleBarge(t, b, time, h).terminal;
    RejectShrinksQueue(t, b, time, h);
    var n := CheckNext(t1, time, h);
    forall x ensures Has(n.terminal.book, x) <==> Has(t.book, x) && x !in [b] + n.rejected {
      assert x in [b] + n.rejected <==> x == b || x in n.rejected;
    }
    assert multiset([b] + n.rejected) == multiset{b} + multiset(n.rejected);
  }

  /** bargeArrives: record the actual arrival and join the queue. An IDLE
      terminal starts handling at once under the Unreserved logic; under the
      Reserved logic it asks the admission rules and, if the barge is not
      admitted, scans the book for another queued barge. A HANDLING terminal
      only queues the barge. */
  function OnBargeArrives(t: Terminal, b: BargeId, time: int, logic: Logic, h: HandlingTimes): (o: Outcome)
    requires Consistent(t)
    requires logic == Reserved && t.state == Idle ==> |t.book| == 1 || Has(t.book, b)
    ensures Consistent(o.terminal)
    ensures o.terminal.arrivals == t.arrivals[b := time]
    ensures o.terminal.numHandling == t.numHandling
    ensures t.state == Handling ==> o == Outcome(t.(arrivals := t.arrivals[b := time], queue := t.queue + [b]), false, [], [])
    ensures logic == Unreserved && t.state == Idle ==>
              o.events == [StartEvent(t, b, time)] && o.terminal.queue == t.queue + [b] && o.terminal.book == t.book
    ensures forall c :: Has(o.terminal.book, c) <==> Has(t.book, c) && c !in o.rejected
    ensures multiset(o.terminal.queue) == multiset(t.queue) + multiset{b} - multiset(o.rejected)
    ensures SortedByLst(t.book) ==> SortedByLst(o.terminal.book)
  {
    var t1 := t.(arrivals := t.arrivals[b := time], queue := t.queue + [b]);
    assert Consistent(t1);
    if logic == Unreserved && t.state == Idle then
      Outcome(t1, true, [], [StartEvent(t, b, time)])
    else if logic == Reserved && t.state == Idle then
      AdmitOnArrival(t1, b, time, h)
    else
      Outcome(t1, false, [], [])
  }


  /** handleBarge: the barge leaves the queue, the terminal is HANDLING, one
      more barge is in handling, and its finish fires first at the tick
      `handlingTime` later. */
  function OnHandleBarge(t: Terminal, b: BargeId, time: int, handlingTime: int): (o: Outcome)
    ensures o.terminal.book == t.book && o.terminal.state == Handling
    ensures o.terminal.numHandling == t.numHandling + 1
    ensures multiset(o.terminal.queue) == multiset(t.queue) - multiset{b}
    ensures o.events == [Event(time + handlingTime, FirstPriority, FinishHandling(t.id, b))]
    ensures Consistent(t) ==> Consistent(o.terminal)
  {
    var t1 := t.(queue := RemoveFirst(t.queue, b), state := Handling, numHandling := t.numHandling + 1);
    assert forall x | x in t1.queue :: x in multiset(t1.queue);
    Outcome(t1, true, [], [Event(time + handlingTime, FirstPriority, FinishHandling(t.id, b))])
  }

  /** finishHandling: the barge's appointment is removed and one barge fewer
      is in handling. An empty queue makes the terminal IDLE; otherwise the
      Unreserved logic starts the head of the queue and the Reserved logic
      scans the book, turning IDLE if nobody is admitted. */
  function OnFinishHandling(t: Terminal, b: BargeId, time: int, logic: Logic, h: HandlingTimes): (o: Outcome)
    requires Consistent(t)
    ensures Consistent(o.terminal)
    ensures o.terminal.numHandling == t.numHandling - 1
    ensures !Has(o.terminal.book, b)
    ensures forall c | c != b :: Has(o.terminal.book, c) <==> Has(t.book, c) && c !in o.rejected
    ensures |t.queue| == 0 ==> o.terminal.state == Idle && o.events == []
    ensures logic == Unreserved && |t.queue| > 0 ==>
              o.events == [StartEvent(t, t.queue[0], time)] && o.terminal.queue == t.queue
    ensures !o.found ==> o.terminal.state == Idle || (logic == Unreserved && |t.queue| > 0)
    ensures multiset(o.terminal.queue) == multiset(t.queue) - multiset(o.rejected)
    ensures SortedByLst(t.book) ==> SortedByLst(o.terminal.book)
  {
    var t1 := t.(book := Remove(t.book, b), numHandling := t.numHandling - 1);
    if |t1.queue| == 0 then
      Outcome(t1.(state := Idle), false, [], [])
    else if logic == Unreserved then
      Outcome(t1, false, [], [StartEvent(t, t1.queue[0], time)])
    else
      var n := CheckNext(t1, time, h);
      if !n.found then Outcome(n.terminal.(state := Idle), false, n.rejected, n.events)
      else n
  }

  /** Handling then finishing a barge leaves the number of barges in
      handling where it was and the barge out of the book. */
  lemma HandleThenFinish(t: Terminal, b: BargeId, start: int, handlingTime: int, logic: Logic, h: HandlingTimes)
    requires Consistent(t)
    ensures var t1 := OnHandleBarge(t, b, start, handlingTime).terminal;
            var t2 := OnFinishHandling(t1, b, start + handlingTime, logic, h).terminal;
            t2.numHandling == t.numHandling && !Has(t2.book, b)
  {
  }
}
