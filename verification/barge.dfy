/** A barge: it plans its rotation through the port with the time-dependent
    TSP solver, registers the appointments that rotation implies with the
    terminals, and then sails, waits, is handled and finally leaves,
    keeping its statistics. A re-plan drops the terminals already visited
    and starts over from the current time. */
module Barges {
  import opened Events
  import opened ListQueries
  import opened Wrappers
  import opened AppointmentBook
  import opened WaitingProfiles
  import opened PartialSolutions
  import opened Tdtsp

  datatype BargeState = Sailing | Waiting | Handling

  /** The port-wide settings a barge reads: the sailing-time table between
      terminal ids and the slack method of the waiting profiles. */
  datatype Port = Port(table: seq<seq<int>>, slack: Slack)

  /** One appointment as the barge records it: terminal, latest arrival
      time, latest starting time. */
  datatype Booking = Booking(terminal: TerminalId, lat: int, lst: int)

  datatype Barge = Barge(
    number: BargeId,
    arrivalTime: int,
    terminals: seq<TerminalId>,
    handlingTimes: seq<int>,
    visited: seq<TerminalId>,
    sail: seq<seq<int>>,
    bestNodes: seq<nat>,
    expectedLeave: int,
    bestSTime: int,
    bookings: seq<Booking>,
    remaining: seq<nat>,
    state: BargeState,
    totalSailing: int,
    totalHandling: int,
    totalWaiting: int,
    actualSojourn: int,
    difference: int,
    informationSatisfaction: int)

  // ---------------------------------------------------------------------------
  // Itinerary and port settings
  // ---------------------------------------------------------------------------

  /** The settings are usable: a square table and a Factor denominator that
      is not zero (Java would throw on the division). */
  predicate PortOk(port: Port) {
    && (forall i | 0 <= i < |port.table| :: |port.table[i]| == |port.table|)
    && (port.slack.Factor? ==> port.slack.denominator != 0)
  }

  /** What the port hands a new barge: the entrance t0 first, then distinct
      other terminals (at most nine besides t0), one handling time each,
      every terminal known to the table and to the port's books. */
  predicate Itinerary(port: Port, books: seq<Book>, ts: seq<TerminalId>, hs: seq<int>) {
    && 1 <= |ts| <= 10
    && |hs| == |ts|
    && ts[0] == PortTerminal
    && Distinct(ts)
    && (forall k | 0 <= k < |ts| :: ts[k] < |port.table| && ts[k] < |books|)
  }

  // ---------------------------------------------------------------------------
  // Planning: sailing times, waiting profiles, the solver instance
  // ---------------------------------------------------------------------------

  /** createSailingTimes: the sub-table of the port's sailing times between
      the barge's own terminals, indexed by node. */
  method CreateSailingTimes(table: seq<seq<int>>, ts: seq<TerminalId>) returns (sail: seq<seq<int>>)
    requires forall i | 0 <= i < |table| :: |table[i]| == |table|
    requires forall k | 0 <= k < |ts| :: ts[k] < |table|
    ensures |sail| == |ts|
    ensures forall i | 0 <= i < |sail| :: |sail[i]| == |ts|
    ensures forall i, j {:trigger sail[i][j]} | 0 <= i < |ts| && 0 <= j < |ts| :: sail[i][j] == table[ts[i]][ts[j]]
  {
    var n := |ts|;
    sail := [];
    var i := 0;
    while i < n
      invariant 0 <= i <= n
      invariant |sail| == i
      invariant forall a | 0 <= a < i :: |sail[a]| == n
      invariant forall a, b | 0 <= a < i && 0 <= b < n :: sail[a][b] == table[ts[a]][ts[b]]
    {
      var row: seq<int> := [];
      var j := 0;
      while j < n
        invariant 0 <= j <= n
        invariant |row| == j
        invariant forall b | 0 <= b < j :: row[b] == table[ts[i]][ts[b]]
      {
        row := row + [table[ts[i]][ts[j]]];
        j := j + 1;
      }
      sail := sail + [row];
      i := i + 1;
    }
  }

  /** requestWaitingProfiles: every terminal's profile for this barge at
      `now`, built from its book and the barge's handling time there. Only
      the terminal t0 answers with the fixed port-entrance profile. */
  function Profiles(books: seq<Book>, ts: seq<TerminalId>, hs: seq<int>, now: int): (ps: seq<Profile>)
    requires |hs| == |ts| && forall k | 0 <= k < |ts| :: ts[k] < |books|
    ensures |ps| == |ts|
    ensures forall k | 0 <= k < |ts| :: ps[k] == PortProfile(now) <==> ts[k] == PortTerminal
  {
    var ps := seq(|ts|, k requires 0 <= k < |ts| => NewProfile(books[ts[k]], now, hs[k], ts[k] == PortTerminal));
    assert forall k | 0 <= k < |ts| && ts[k] != PortTerminal :: ps[k] != PortProfile(now) by {
      forall k | 0 <= k < |ts| && ts[k] != PortTerminal ensures ps[k] != PortProfile(now) {
        TerminalProfileNotPort(books[ts[k]], now, hs[k]);
      }
    }
    ps
  }

  /** Every profile but t0's has the shape its terminal's book allows. */
  lemma ProfilesShaped(books: seq<Book>, ts: seq<TerminalId>, hs: seq<int>, now: int)
    requires |hs| == |ts| && forall k | 0 <= k < |ts| :: ts[k] < |books|
    ensures var ps := Profiles(books, ts, hs, now);
            forall k | 0 <= k < |ts| && ts[k] != PortTerminal :: Shaped(ps[k], now, |books[ts[k]]|)
  {
    var ps := Profiles(books, ts, hs, now);
    forall k | 0 <= k < |ts| && ts[k] != PortTerminal ensures Shaped(ps[k], now, |books[ts[k]]|) {
      ProfileShape(books[ts[k]], now, hs[k]);
    }
  }

  /** The book sizes the solver's waiting-time queries read. */
  function BookSizes(books: seq<Book>, ts: seq<TerminalId>): (sizes: seq<nat>)
    requires forall k | 0 <= k < |ts| :: ts[k] < |books|
    ensures |sizes| == |ts|
    ensures forall k | 0 <= k < |ts| :: sizes[k] == |books[ts[k]]|
  {
    seq(|ts|, k requires 0 <= k < |ts| => |books[ts[k]]|)
  }

  function PlanInstance(port: Port, books: seq<Book>, ts: seq<TerminalId>, hs: seq<int>,
                        sail: seq<seq<int>>, now: int): Instance
    requires |hs| == |ts| && forall k | 0 <= k < |ts| :: ts[k] < |books|
  {
    Instance(sail, hs, Profiles(books, ts, hs, now), BookSizes(books, ts), port.slack)
  }

  /** The instance a barge hands its solver is a valid one over its own
      terminals, with the port-entrance profile at node 0. */
  lemma PlanInstanceValid(port: Port, books: seq<Book>, ts: seq<TerminalId>, hs: seq<int>,
                          sail: seq<seq<int>>, now: int)
    requires PortOk(port) && Itinerary(port, books, ts, hs)
    requires |sail| == |ts| && forall i | 0 <= i < |sail| :: |sail[i]| == |ts|
    ensures var inst := PlanInstance(port, books, ts, hs, sail, now);
            && Valid(inst) && NumNodes(inst) == |ts| - 1 <= 9
            && inst.profiles[0].entries == [Entry(0, 0)]
  {
  }

  // ---------------------------------------------------------------------------
  // addAppointments: the appointment chain along the best route
  // ---------------------------------------------------------------------------

  /** The latest starting time node d's profile quotes for arrival at
      `lat`, reading the size d's terminal's book has at that moment. */
  function QuotedLst(inst: Instance, ids: seq<TerminalId>, books: seq<Book>, d: nat, lat: int): int
    requires Valid(inst) && |ids| == |inst.sail| && d <= NumNodes(inst)
    requires forall i | 0 <= i < |ids| :: ids[i] < |books|
  {
    lat + MaxWaitingTime(inst.profiles[d], lat, inst.slack, |books[ids[d]]|)
  }

  /** Terminal.addAppointment on node d's terminal. */
  function RegisterAt(inst: Instance, ids: seq<TerminalId>, books: seq<Book>, barge: BargeId,
                      d: nat, lat: int, lst: int): (r: seq<Book>)
    requires Valid(inst) && |ids| == |inst.sail| && d <= NumNodes(inst)
    requires forall i | 0 <= i < |ids| :: ids[i] < |books|
    ensures |r| == |books|
    ensures forall x | 0 <= x < |books| && x != ids[d] :: r[x] == books[x]
  {
    books[ids[d] := AddAppointment(books[ids[d]], barge, lat, lst, inst.handling[d])]
  }

  /** At the port entrance the quoted waiting time does not depend on the
      size of t0's book. */
  lemma PortSizeIrrelevant(p: Profile, t: int, slack: Slack, s1: nat, s2: nat)
    requires slack.Factor? ==> slack.denominator != 0
    requires p.entries == [Entry(0, 0)]
    ensures MaxWaitingTime(p, t, slack, s1) == MaxWaitingTime(p, t, slack, s2)
  {
    if t >= 0 {
      assert FindEntry(p.entries, t) == Some(0);
      assert RawWait(p.entries, 0, t) == 0;
    } else {
      assert FindEntry(p.entries, t) == None;
    }
  }

  /** The conditions under which the chain reads the same book sizes the
      solver did: t0 is the only node that may repeat, distinct nodes name
      distinct terminals, and every other node's book still has the size
      recorded in the instance. */
  predicate ChainReadsPlan(inst: Instance, ids: seq<TerminalId>, books: seq<Book>, route: seq<nat>)
    requires Valid(inst) && |ids| == |inst.sail| && NodesIn(route, NumNodes(inst))
    requires forall i | 0 <= i < |ids| :: ids[i] < |books|
  {
    && inst.profiles[0].entries == [Entry(0, 0)]
    && Distinct(ids)
    && (forall j, k | 0 <= j < k < |route| && route[k] != 0 :: route[j] != route[k])
    && (forall k | 0 <= k < |route| && route[k] != 0 :: |books[ids[route[k]]]| == inst.bookSizes[route[k]])
  }

  /** One leg of the chain takes the solver's arc time, provided the
      terminal's book has the planned size or the node is the port
      entrance. */
  lemma QuoteIsArc(inst: Instance, ids: seq<TerminalId>, books: seq<Book>, d: nat, dep: int, prev: nat)
    requires Valid(inst) && |ids| == |inst.sail| && d <= NumNodes(inst) && prev <= NumNodes(inst)
    requires forall i | 0 <= i < |ids| :: ids[i] < |books|
    requires d == 0 ==> inst.profiles[0].entries == [Entry(0, 0)]
    requires d != 0 ==> |books[ids[d]]| == inst.bookSizes[d]
    ensures QuotedLst(inst, ids, books, d, dep + inst.sail[prev][d]) + inst.handling[d] == dep + Arc(inst, prev, d, dep)
  {
    if d == 0 {
      PortSizeIrrelevant(inst.profiles[0], dep + inst.sail[prev][d], inst.slack, |books[ids[0]]|, inst.bookSizes[0]);
    }
  }

  predicate AllDistinct(books: seq<Book>) {
    forall x {:trigger DistinctBarges(books[x])} | 0 <= x < |books| :: DistinctBarges(books[x])
  }

  /** The facts the chain keeps about one registration. */
  lemma RegisterFacts(inst: Instance, ids: seq<TerminalId>, books: seq<Book>, orig: seq<Book>, barge: BargeId,
                      d: nat, lat: int, lst: int)
    requires Valid(inst) && |ids| == |inst.sail| && d <= NumNodes(inst)
    requires forall i | 0 <= i < |ids| :: ids[i] < |books|
    requires |orig| == |books| && AllDistinct(books)
    requires forall x {:trigger Remove(books[x], barge)} | 0 <= x < |books| :: Remove(books[x], barge) == Remove(orig[x], barge)
    ensures var r := RegisterAt(inst, ids, books, barge, d, lat, lst);
            && AllDistinct(r)
            && Has(r[ids[d]], barge)
            && (forall x | 0 <= x < |books| :: Remove(r[x], barge) == Remove(orig[x], barge))
            && (forall x | 0 <= x < |books| :: Has(books[x], barge) ==> Has(r[x], barge))
  {
    var b := books[ids[d]];
    if Has(b, barge) {
      AddAppointmentExisting(b, barge, lat, lst, inst.handling[d]);
    } else {
      AddAppointmentKeepsSorted(b, barge, lat, lst, inst.handling[d]);
      AddAppointmentFresh(b, barge, lat, lst, inst.handling[d]);
      var i := InsertionPoint(b, lst);
      assert AddAppointment(b, barge, lat, lst, inst.handling[d])[i].barge == barge;
    }
    RemoveAfterAdd(b, barge, lat, lst, inst.handling[d]);
  }

  /** The node a chain leg departs from: the port entrance for the first
      leg, otherwise the node before. */
  function PrevNode(route: seq<nat>, k: nat): nat
    requires k < |route|
  {
    if k == 0 then 0 else route[k - 1]
  }

  /** Departure times that follow the solver's arcs leg by leg are the
      solver's walk over the route so far. */
  lemma {:induction false} DeparturesAreWalk(inst: Instance, start: int, route: seq<nat>, bookings: seq<Booking>,
                                             deps: seq<int>, k: nat)
    requires Valid(inst) && NodesIn(route, NumNodes(inst))
    requires Timed(inst, route, bookings, deps) && |bookings| == |route| && deps[0] == start && k <= |route|
    ensures NodesIn(route[..k], NumNodes(inst)) && deps[k] == Walk(inst, start, 0, route[..k])
    ensures LastOr(route[..k], 0) == if k == 0 then 0 else route[k - 1]
  {
    if k > 0 {
      var init, y := route[..k - 1], route[k - 1];
      DeparturesAreWalk(inst, start, route, bookings, deps, k - 1);
      assert deps[k] == deps[k - 1] + Arc(inst, PrevNode(route, k - 1), y, deps[k - 1]) by {
        var b := bookings[k - 1];
      }
      assert route[..k] == init + [y];
      assert LastOr(init, 0) == PrevNode(route, k - 1);
      WalkSnoc(inst, start, 0, init, y);
    } else {
      assert route[..0] == [];
    }
  }

  /** One leg of addAppointments: the latest arrival time at node d is the
      departure `dep` from `prev` plus the sailing time, the latest starting
      time adds the waiting time d's profile quotes reading the live size of
      d's book, and the barge is put in that book. */
  method RegisterLeg(inst: Instance, ids: seq<TerminalId>, books: seq<Book>, orig: seq<Book>, barge: BargeId,
                     prev: nat, d: nat, dep: int) returns (out: seq<Book>, lat: int, lst: int)
    requires Valid(inst) && |ids| == |inst.sail| && d <= NumNodes(inst) && prev <= NumNodes(inst)
    requires forall i | 0 <= i < |ids| :: ids[i] < |books|
    ensures lat == dep + inst.sail[prev][d]
    ensures |out| == |books| && forall x | 0 <= x < |books| && x != ids[d] :: out[x] == books[x]
    ensures (d == 0 ==> inst.profiles[0].entries == [Entry(0, 0)]) && (d != 0 ==> |books[ids[d]]| == inst.bookSizes[d]) ==>
              lst + inst.handling[d] == dep + Arc(inst, prev, d, dep)
    ensures && AllDistinct(books) && |orig| == |books|
            && (forall x {:trigger Remove(books[x], barge)} | 0 <= x < |books| :: Remove(books[x], barge) == Remove(orig[x], barge))
            ==> && AllDistinct(out)
                && Has(out[ids[d]], barge)
                && (forall x {:trigger Remove(out[x], barge)} | 0 <= x < |books| :: Remove(out[x], barge) == Remove(orig[x], barge))
                && (forall x {:trigger Has(out[x], barge)} | 0 <= x < |books| :: Has(books[x], barge) ==> Has(out[x], barge))
  {
    lat := dep + inst.sail[prev][d];
    lst := QuotedLst(inst, ids, books, d, lat);
    if (d == 0 ==> inst.profiles[0].entries == [Entry(0, 0)]) && (d != 0 ==> |books[ids[d]]| == inst.bookSizes[d]) {
      QuoteIsArc(inst, ids, books, d, dep, prev);
    }
    if && AllDistinct(books) && |orig| == |books|
       && (forall x {:trigger Remove(books[x], barge)} | 0 <= x < |books| :: Remove(books[x], barge) == Remove(orig[x], barge)) {
      RegisterFacts(inst, ids, books, orig, barge, d, lat, lst);
    }
    out := RegisterAt(inst, ids, books, barge, d, lat, lst);
  }

  /** The chain's legs so far follow the solver's arcs: leg j departs at
      deps[j] from the node before it, and its booking's times are the
      solver's. */
  predicate Timed(inst: Instance, route: seq<nat>, bookings: seq<Booking>, deps: seq<int>)
    requires Valid(inst) && NodesIn(route, NumNodes(inst))
  {
    && |bookings| <= |route| && |deps| == |bookings| + 1
    && forall j {:trigger bookings[j]} | 0 <= j < |bookings| ::
         && deps[j + 1] == deps[j] + Arc(inst, PrevNode(route, j), route[j], deps[j])
         && bookings[j].lat == deps[j] + inst.sail[PrevNode(route, j)][route[j]]
         && bookings[j].lst + inst.handling[route[j]] == deps[j + 1]
  }

  lemma TimedStep(inst: Instance, route: seq<nat>, bookings: seq<Booking>, deps: seq<int>, b: Booking, dep: int)
    requires Valid(inst) && NodesIn(route, NumNodes(inst))
    requires Timed(inst, route, bookings, deps) && |bookings| < |route|
    requires var k := |bookings|;
             && dep == deps[k] + Arc(inst, PrevNode(route, k), route[k], deps[k])
             && b.lat == deps[k] + inst.sail[PrevNode(route, k)][route[k]]
             && b.lst + inst.handling[route[k]] == dep
    ensures Timed(inst, route, bookings + [b], deps + [dep])
  {
    var bs, ds := bookings + [b], deps + [dep];
    forall j | 0 <= j < |bs|
      ensures && ds[j + 1] == ds[j] + Arc(inst, PrevNode(route, j), route[j], ds[j])
              && bs[j].lat == ds[j] + inst.sail[PrevNode(route, j)][route[j]]
              && bs[j].lst + inst.handling[route[j]] == ds[j + 1]
    {
      if j < |bookings| {
        assert bs[j] == bookings[j] && ds[j] == deps[j] && ds[j + 1] == deps[j + 1];
      }
    }
  }

  /** Every appointment of the chain keeps the solver's clock: its latest
      arrival is the solver's arrival at route[k] and its latest starting
      time plus handling is the solver's time after the leg to route[k]. */
  predicate Chained(inst: Instance, start: int, route: seq<nat>, bookings: seq<Booking>)
    requires Valid(inst) && NodesIn(route, NumNodes(inst))
  {
    && |bookings| == |route|
    && forall k {:trigger bookings[k]} | 0 <= k < |route| ::
         && bookings[k].lat == Walk(inst, start, 0, route[..k]) + inst.sail[LastOr(route[..k], 0)][route[k]]
         && bookings[k].lst + inst.handling[route[k]] == Walk(inst, start, 0, route[..k + 1])
  }

  /** A whole chain whose legs follow the solver's arcs keeps the solver's
      clock: the booking at route[k] arrives at the walk's time so far plus
      the sailing time, and departs at the walk's time after route[k]. */
  lemma TimedIsWalk(inst: Instance, start: int, route: seq<nat>, bookings: seq<Booking>, deps: seq<int>)
    requires Valid(inst) && NodesIn(route, NumNodes(inst))
    requires Timed(inst, route, bookings, deps) && |bookings| == |route| && deps[0] == start
    ensures Chained(inst, start, route, bookings)
  {
    forall k | 0 <= k < |route|
      ensures bookings[k].lat == Walk(inst, start, 0, route[..k]) + inst.sail[LastOr(route[..k], 0)][route[k]]
      ensures bookings[k].lst + inst.handling[route[k]] == Walk(inst, start, 0, route[..k + 1])
    {
      TimedAt(inst, start, route, bookings, deps, k);
    }
  }

  lemma TimedAt(inst: Instance, start: int, route: seq<nat>, bookings: seq<Booking>, deps: seq<int>, k: nat)
    requires Valid(inst) && NodesIn(route, NumNodes(inst))
    requires Timed(inst, route, bookings, deps) && |bookings| == |route| && deps[0] == start && k < |route|
    ensures NodesIn(route[..k], NumNodes(inst)) && NodesIn(route[..k + 1], NumNodes(inst))
    ensures bookings[k].lat == Walk(inst, start, 0, route[..k]) + inst.sail[LastOr(route[..k], 0)][route[k]]
    ensures bookings[k].lst + inst.handling[route[k]] == Walk(inst, start, 0, route[..k + 1])
  {
    DeparturesAreWalk(inst, start, route, bookings, deps, k);
    DeparturesAreWalk(inst, start, route, bookings, deps, k + 1);
    var b := bookings[k];
    assert b.lat == deps[k] + inst.sail[PrevNode(route, k)][route[k]];
    assert b.lst + inst.handling[route[k]] == deps[k + 1];
  }

  /** addAppointments: walk the route from the port entrance departing at
      `start`. At each node the latest arrival time is the departure plus the
      sailing time, the latest starting time adds the waiting time the
      node's profile quotes (reading the size the terminal's book has at that
      moment), the barge is put in that terminal's book, and it departs
      again after handling.

      When the chain reads the same book sizes as the solver did, it keeps
      the solver's clock: the latest arrival time at route[k] is the
      solver's time after the earlier legs plus the sailing time, and the
      latest starting time plus handling there is the solver's time after
      the leg to route[k]. Terminals outside the itinerary keep their books,
      and removing the barge again gives back every book as it was, apart
      from an appointment of this barge it already had. */
  method AddAppointments(inst: Instance, ids: seq<TerminalId>, books: seq<Book>, barge: BargeId,
                         route: seq<nat>, start: int) returns (out: seq<Book>, bookings: seq<Booking>)
    requires Valid(inst) && |ids| == |inst.sail|
    requires NodesIn(route, NumNodes(inst)) && forall i | 0 <= i < |ids| :: ids[i] < |books|
    ensures |out| == |books| && |bookings| == |route|
    ensures forall k {:trigger bookings[k]} | 0 <= k < |route| :: bookings[k].terminal == ids[route[k]]
    ensures forall x | 0 <= x < |books| && x !in ids :: out[x] == books[x]
    ensures AllDistinct(books) ==> AllDistinct(out)
    ensures AllDistinct(books) ==> forall x | 0 <= x < |books| :: Remove(out[x], barge) == Remove(books[x], barge)
    ensures AllDistinct(books) ==> forall k | 0 <= k < |route| :: Has(out[ids[route[k]]], barge)
    ensures ChainReadsPlan(inst, ids, books, route) ==> Chained(inst, start, route, bookings)
  {
    ghost var plan := ChainReadsPlan(inst, ids, books, route);
    ghost var distinct := AllDistinct(books);
    ghost var deps := [start];
    out := books;
    bookings := [];
    var dep := start;
    var prev: nat := 0;
    var k := 0;
    while k < |route|
      invariant 0 <= k <= |route| && |out| == |books| && |bookings| == k && |deps| == k + 1
      invariant prev <= NumNodes(inst) && (k > 0 ==> prev == route[k - 1]) && (k == 0 ==> prev == 0)
      invariant deps[0] == start && deps[k] == dep
      invariant forall j {:trigger bookings[j]} | 0 <= j < k :: bookings[j].terminal == ids[route[j]]
      invariant forall x | 0 <= x < |books| && x !in ids :: out[x] == books[x]
      invariant distinct ==> AllDistinct(out)
      invariant distinct ==> forall x {:trigger Remove(out[x], barge)} | 0 <= x < |books| ::
                               Remove(out[x], barge) == Remove(books[x], barge)
      invariant distinct ==> forall j {:trigger Has(out[ids[route[j]]], barge)} | 0 <= j < k :: Has(out[ids[route[j]]], barge)
      invariant plan ==> forall j | k <= j < |route| && route[j] != 0 ::
                           |out[ids[route[j]]]| == inst.bookSizes[route[j]]
      invariant plan ==> Timed(inst, route, bookings, deps)
    {
      var d := route[k];
      var out1, lat, lst := RegisterLeg(inst, ids, out, books, barge, prev, d, dep);
      if plan {
        forall j | k < j < |route| && route[j] != 0
          ensures |out1[ids[route[j]]]| == inst.bookSizes[route[j]]
        {
          assert route[j] != d;
          assert ids[route[j]] != ids[d];
        }
      }
      out := out1;
      ghost var bookings0, deps0 := bookings, deps;
      bookings := bookings + [Booking(ids[d], lat, lst)];
      dep := lst + inst.handling[d];
      deps := deps + [dep];
      if plan {
        TimedStep(inst, route, bookings0, deps0, Booking(ids[d], lat, lst), dep);
      }
      prev := d;
      k := k + 1;
    }
    if plan {
      TimedIsWalk(inst, start, route, bookings, deps);
    }
  }

  /** The chain's last appointment, at the port exit, arrives at the
      solver's leave time of the route. */
  lemma ChainLeaveTime(inst: Instance, start: int, route: seq<nat>, bookings: seq<Booking>)
    requires Valid(inst) && |route| >= 2 && NodesIn(route, NumNodes(inst))
    requires Chained(inst, start, route, bookings) && route[|route| - 1] == 0
    ensures bookings[|route| - 1].lat == RouteLeaveTime(inst, start, route)
  {
    var n := |route| - 1;
    assert NodesIn(route[..n], NumNodes(inst));
  }

  /** Before any registration, the books are the ones the solver read, so
      the chain along a tour reads the plan. */
  lemma TourReadsPlan(port: Port, books: seq<Book>, ts: seq<TerminalId>, hs: seq<int>, sail: seq<seq<int>>,
                      now: int, route: seq<nat>)
    requires PortOk(port) && Itinerary(port, books, ts, hs)
    requires |sail| == |ts| && forall i | 0 <= i < |sail| :: |sail[i]| == |ts|
    requires IsTour(route, |ts| - 1)
    ensures NodesIn(route, |ts| - 1)
    ensures Valid(PlanInstance(port, books, ts, hs, sail, now))
    ensures ChainReadsPlan(PlanInstance(port, books, ts, hs, sail, now), ts, books, route)
  {
    PlanInstanceValid(port, books, ts, hs, sail, now);
    TourNodes(route, |ts| - 1);
    var n := |ts| - 1;
    forall j, k | 0 <= j < k < |route| && route[k] != 0
      ensures route[j] != route[k]
    {
      assert 1 <= k <= n;
      if j >= 1 {
        assert route[j] == route[1..n + 1][j - 1] && route[k] == route[1..n + 1][k - 1];
      } else {
        assert route[k] == route[1..n + 1][k - 1];
      }
    }
  }

  // ---------------------------------------------------------------------------
  // Planning a rotation: what the constructor and a re-plan share
  // ---------------------------------------------------------------------------

  /** createSailingTimes, requestWaitingProfiles and a new TDTSP from
      `now`: a tour with the least leave time over every visiting order. */
  method PlanRoute(port: Port, books: seq<Book>, ts: seq<TerminalId>, hs: seq<int>, now: int)
    returns (sail: seq<seq<int>>, sol: Solution)
    requires PortOk(port) && Itinerary(port, books, ts, hs)
    ensures |sail| == |ts| && forall i | 0 <= i < |sail| :: |sail[i]| == |ts|
    ensures forall i, j {:trigger sail[i][j]} | 0 <= i < |ts| && 0 <= j < |ts| :: sail[i][j] == port.table[ts[i]][ts[j]]
    ensures Valid(PlanInstance(port, books, ts, hs, sail, now))
    ensures IsTour(sol.bestNodes, |ts| - 1) && NodesIn(sol.bestNodes, |ts| - 1)
    ensures sol.bestLeaveTime == RouteLeaveTime(PlanInstance(port, books, ts, hs, sail, now), now, sol.bestNodes)
    ensures LeastLeave(PlanInstance(port, books, ts, hs, sail, now), now, sol.bestNodes)
    ensures sol.bestSojournTime == sol.bestLeaveTime - now
  {
    sail := CreateSailingTimes(port.table, ts);
    PlanInstanceValid(port, books, ts, hs, sail, now);
    sol := NewTdtsp(PlanInstance(port, books, ts, hs, sail, now), now);
  }

  /** addAppointments along a route PlanRoute chose, on the books it was
      planned on. The appointment the barge registers at the port exit
      arrives exactly at the solver's leave time: the chain registered with
      the terminals keeps the solver's promise. */
  method RegisterRotation(port: Port, books: seq<Book>, number: BargeId, ts: seq<TerminalId>, hs: seq<int>,
                          now: int, sail: seq<seq<int>>, route: seq<nat>, leave: int)
    returns (out: seq<Book>, bookings: seq<Booking>)
    requires PortOk(port) && Itinerary(port, books, ts, hs)
    requires |sail| == |ts| && forall i | 0 <= i < |sail| :: |sail[i]| == |ts|
    requires IsTour(route, |ts| - 1) && NodesIn(route, |ts| - 1)
    requires leave == RouteLeaveTime(PlanInstance(port, books, ts, hs, sail, now), now, route)
    ensures |bookings| == |route|
    ensures forall k {:trigger bookings[k]} | 0 <= k < |bookings| :: bookings[k].terminal == ts[route[k]]
    ensures bookings[|bookings| - 1].lat == leave
    ensures |out| == |books|
    ensures forall x | 0 <= x < |books| && x !in ts :: out[x] == books[x]
    ensures AllDistinct(books) ==> AllDistinct(out)
    ensures AllDistinct(books) ==> forall x | 0 <= x < |books| :: Remove(out[x], number) == Remove(books[x], number)
    ensures AllDistinct(books) ==> forall k | 0 <= k < |route| :: Has(out[ts[route[k]]], number)
  {
    var inst := PlanInstance(port, books, ts, hs, sail, now);
    TourReadsPlan(port, books, ts, hs, sail, now, route);
    out, bookings := AddAppointments(inst, ts, books, number, route, now);
    ChainLeaveTime(inst, now, route, bookings);
  }

  // ---------------------------------------------------------------------------
  // The voyage: sailing, waiting, handling, leaving
  // ---------------------------------------------------------------------------

  /** The barge's own lists agree: one handling time per terminal, the
      sailing matrix over its nodes, and a remaining route over them. */
  predicate WellFormed(b: Barge) {
    && |b.terminals| >= 1
    && |b.handlingTimes| == |b.terminals|
    && |b.sail| == |b.terminals| && SquareMatrix(b.sail)
    && NodesIn(b.remaining, |b.sail| - 1)
  }

  /** A barge after an action, and the action it schedules next. */
  datatype Moved = Moved(barge: Barge, event: Event)

  /** scheduleArrivalTerminal: sail the first leg of `route` from `time`.
      The sailing statistic grows by exactly the time the arrival lies
      ahead, the arrival is at the terminal of the leg's destination, and
      nothing else about the barge changes. */
  function ScheduleArrivalTerminal(b: Barge, route: seq<nat>, time: int): (m: Moved)
    requires WellFormed(b) && |route| >= 2 && NodesIn(route, |b.sail| - 1)
    ensures m.event.time - time == m.barge.totalSailing - b.totalSailing == b.sail[route[0]][route[1]]
    ensures m.event.priority == RandomPriority
    ensures m.event.action == ArriveAtTerminal(b.number, b.terminals[route[1]])
    ensures m.barge.(totalSailing := b.totalSailing) == b
  {
    var sailing := b.sail[route[0]][route[1]];
    Moved(b.(totalSailing := b.totalSailing + sailing),
          Event(time + sailing, RandomPriority, ArriveAtTerminal(b.number, b.terminals[route[1]])))
  }

  /** arriveAtTerminal: the barge waits, and the terminal hears of its
      arrival at the same moment. */
  function OnArriveAtTerminal(b: Barge, ter: TerminalId, time: int): (m: Moved)
    ensures m.barge.state == Waiting && m.barge.(state := b.state) == b
    ensures m.event == Event(time, RandomPriority, BargeArrives(ter, b.number))
  {
    Moved(b.(state := Waiting), Event(time, RandomPriority, BargeArrives(ter, b.number)))
  }

  /** The barge side of Terminal.handleBarge: the barge is HANDLING and its
      handling statistic grows by its handling time at that terminal, looked
      up by the terminal's position in its list. The Java lookup throws for
      a terminal not in the list. */
  function StartHandling(b: Barge, ter: TerminalId): (r: Barge)
    requires |b.handlingTimes| == |b.terminals| && ter in b.terminals
    ensures r.state == Handling
    ensures Distinct(b.terminals) ==>
              forall k | 0 <= k < |b.terminals| && b.terminals[k] == ter ::
                r.totalHandling == b.totalHandling + b.handlingTimes[k]
    ensures r.(state := b.state, totalHandling := b.totalHandling) == b
  {
    var k := IndexOf(b.terminals, ter);
    b.(state := Handling, totalHandling := b.totalHandling + b.handlingTimes[k])
  }

  /** afterFinish: the barge sails again and records the terminal as
      visited. While more than two nodes remain the route loses its first
      node; if more than two are still left it sails for the next terminal,
      otherwise it sails from the last node to the exit and leaves the port
      there, at the last priority tier. */
  function AfterFinish(b: Barge, time: int, ter: TerminalId): (m: Moved)
    requires WellFormed(b) && |b.remaining| >= 2
    ensures m.barge.state == Sailing && m.barge.visited == b.visited + [ter]
    ensures |m.barge.remaining| >= 2 && b.remaining[|b.remaining| - 1] == m.barge.remaining[|m.barge.remaining| - 1]
    ensures m.barge.totalSailing - b.totalSailing == m.event.time - time
    ensures m.event.action.LeavePort? <==> |b.remaining| <= 3
    ensures m.event.action.LeavePort? ==> m.event.priority == LastPriority
  {
    var b1 := b.(state := Sailing, visited := b.visited + [ter]);
    var rest := if |b.remaining| >= 3 then b.remaining[1..] else b.remaining;
    var b2 := b1.(remaining := rest);
    if |rest| >= 3 then
      ScheduleArrivalTerminal(b2, rest, time)
    else
      var sailing := b.sail[rest[0]][rest[1]];
      Moved(b2.(totalSailing := b2.totalSailing + sailing), Event(time + sailing, LastPriority, LeavePort(b.number)))
  }

  /** The barge is `j` legs into `route`: the route from its current node
      on remains, and its sailing statistic holds `base` plus the legs up
      to and including the one it is sailing or has just sailed. */
  predicate OnRoute(b: Barge, route: seq<nat>, j: nat, base: int) {
    && WellFormed(b)
    && NodesIn(route, |b.sail| - 1)
    && j + 2 <= |route|
    && b.remaining == route[j..]
    && b.totalSailing == base + LegsSailing(b.sail, route, j + 1)
  }

  /** Finishing at the next node of the route moves the barge one leg on:
      it sails for the terminal after it, or, from the route's last
      terminal, to the exit, and then its sailing statistic holds the whole
      route's sailing time. */
  lemma AfterFinishOnRoute(b: Barge, route: seq<nat>, j: nat, base: int, time: int, ter: TerminalId)
    requires OnRoute(b, route, j, base) && j + 3 <= |route|
    ensures var m := AfterFinish(b, time, ter);
            && OnRoute(m.barge, route, j + 1, base)
            && m.event.time == time + b.sail[route[j + 1]][route[j + 2]]
            && (j + 3 < |route| ==> m.event.action == ArriveAtTerminal(b.number, b.terminals[route[j + 2]]))
            && (j + 3 == |route| ==>
                  && m.event.action == LeavePort(b.number)
                  && m.barge.totalSailing == base + PathSailing(b.sail, route))
  {
    assert route[j..][1..] == route[j + 1..];
  }

  /** Java's informationSatisfaction: a mark from 1 to 7 for the difference
      between the promised and the actual leave time. */
  function InformationSatisfaction(difference: int): (mark: int)
    ensures 1 <= mark <= 7
    ensures mark == 7 <==> -3 < difference <= 7
  {
    if difference > 179 then 4
    else if difference > 37 then 5
    else if difference > 7 then 6
    else if difference > -3 then 7
    else if difference > -7 then 6
    else if difference > -15 then 5
    else if difference > -34 then 4
    else if difference > -79 then 3
    else if difference > -180 then 2
    else 1
  }

  /** The later than promised the barge leaves, the lower the mark; the
      earlier than promised beyond the window, the lower the mark too, but
      never below 4. */
  lemma SatisfactionMonotone(d1: int, d2: int)
    ensures d1 <= d2 <= 7 ==> InformationSatisfaction(d1) <= InformationSatisfaction(d2)
    ensures -2 <= d1 <= d2 ==> InformationSatisfaction(d1) >= InformationSatisfaction(d2)
    ensures d1 > 7 ==> 4 <= InformationSatisfaction(d1) <= 6
  {
  }

  /** Barges numbered above this bound do not record statistics. */
  const StatisticsLimit: int := 800000

  /** leavePort: a barge numbered up to the limit records its sojourn, its
      waiting time as the sojourn minus handling and sailing, and how much
      earlier than promised it left, marked by informationSatisfaction. */
  function OnLeavePort(b: Barge, time: int): (r: Barge)
    ensures b.number <= StatisticsLimit ==>
              && r.actualSojourn == time - b.arrivalTime
              && r.totalWaiting + r.totalHandling + r.totalSailing == r.actualSojourn
              && r.difference == b.expectedLeave - time
              && r.informationSatisfaction == InformationSatisfaction(b.expectedLeave - time)
    ensures b.number > StatisticsLimit ==> r == b
    ensures r.totalHandling == b.totalHandling && r.totalSailing == b.totalSailing
    ensures r.(actualSojourn := b.actualSojourn, totalWaiting := b.totalWaiting, difference := b.difference,
               informationSatisfaction := b.informationSatisfaction) == b
  {
    if b.number <= StatisticsLimit then
      var sojourn := time - b.arrivalTime;
      var difference := b.expectedLeave - time;
      b.(actualSojourn := sojourn,
         totalWaiting := time - b.arrivalTime - b.totalHandling - b.totalSailing,
         difference := difference,
         informationSatisfaction := InformationSatisfaction(difference))
    else b
  }

  /** Leaving at the promised time gets the best mark. */
  lemma PunctualLeaveSatisfies(b: Barge)
    requires b.number <= StatisticsLimit
    ensures OnLeavePort(b, b.expectedLeave).informationSatisfaction == 7
    ensures OnLeavePort(b, b.expectedLeave).difference == 0
  {
  }

  // ---------------------------------------------------------------------------
  // Re-planning
  // ---------------------------------------------------------------------------

  /** The barge's terminal list with its parallel handling times. */
  datatype Assignment = Assignment(terminals: seq<TerminalId>, handlingTimes: seq<int>)

  /** Reference definition of what a re-plan keeps: the terminals not yet
      visited, in their order, each with its own handling time. */
  function KeepUnvisited(ts: seq<TerminalId>, hs: seq<int>, vs: seq<TerminalId>): (r: Assignment)
    requires |hs| == |ts|
    ensures |r.handlingTimes| == |r.terminals| <= |ts|
    ensures |ts| > 0 && ts[0] !in vs ==> |r.terminals| > 0 && r.terminals[0] == ts[0] && r.handlingTimes[0] == hs[0]
  {
    if |ts| == 0 then Assignment([], [])
    else
      var rest := KeepUnvisited(ts[1..], hs[1..], vs);
      if ts[0] in vs then rest
      else Assignment([ts[0]] + rest.terminals, [hs[0]] + rest.handlingTimes)
  }

  /** A terminal is kept exactly when it was on the list and not visited. */
  lemma {:induction false} KeptMember(ts: seq<TerminalId>, hs: seq<int>, vs: seq<TerminalId>, t: TerminalId)
    requires |hs| == |ts|
    ensures t in KeepUnvisited(ts, hs, vs).terminals <==> t in ts && t !in vs
  {
    if |ts| > 0 {
      KeptMember(ts[1..], hs[1..], vs, t);
      assert ts == [ts[0]] + ts[1..];
    }
  }

  /** Distinct terminals stay distinct, and every kept terminal keeps the
      handling time it had. */
  lemma KeptPairs(ts: seq<TerminalId>, hs: seq<int>, vs: seq<TerminalId>)
    requires |hs| == |ts| && Distinct(ts)
    ensures var r := KeepUnvisited(ts, hs, vs);
            && Distinct(r.terminals)
            && (forall k | 0 <= k < |r.terminals| :: r.terminals[k] in ts)
            && forall k, j | 0 <= k < |r.terminals| && 0 <= j < |ts| && ts[j] == r.terminals[k] :: r.handlingTimes[k] == hs[j]
  {
    KeptDistinct(ts, hs, vs);
    KeptHandling(ts, hs, vs);
    forall t | t in KeepUnvisited(ts, hs, vs).terminals ensures t in ts {
      KeptMember(ts, hs, vs, t);
    }
  }

  lemma {:induction false} KeptDistinct(ts: seq<TerminalId>, hs: seq<int>, vs: seq<TerminalId>)
    requires |hs| == |ts| && Distinct(ts)
    ensures Distinct(KeepUnvisited(ts, hs, vs).terminals)
  {
    if |ts| > 0 {
      var tt, ht := ts[1..], hs[1..];
      DistinctTail(ts);
      KeptDistinct(tt, ht, vs);
      if ts[0] !in vs {
        var rts := KeepUnvisited(tt, ht, vs).terminals;
        var nts := [ts[0]] + rts;
        assert KeepUnvisited(ts, hs, vs).terminals == nts;
        forall k | 0 <= k < |rts| ensures rts[k] != ts[0] {
          KeptMember(tt, ht, vs, rts[k]);
        }
        forall a, b | 0 <= a < b < |nts| ensures nts[a] != nts[b] {
          assert nts[b] == rts[b - 1];
          if a > 0 { assert nts[a] == rts[a - 1]; }
        }
      }
    }
  }

  lemma {:induction false} KeptHandling(ts: seq<TerminalId>, hs: seq<int>, vs: seq<TerminalId>)
    requires |hs| == |ts| && Distinct(ts)
    ensures var r := KeepUnvisited(ts, hs, vs);
            forall k, j | 0 <= k < |r.terminals| && 0 <= j < |ts| && ts[j] == r.terminals[k] :: r.handlingTimes[k] == hs[j]
  {
    if |ts| > 0 {
      var tt, ht := ts[1..], hs[1..];
      DistinctTail(ts);
      KeptHandling(tt, ht, vs);
      var rest := KeepUnvisited(tt, ht, vs);
      var r := KeepUnvisited(ts, hs, vs);
      forall k, j | 0 <= k < |r.terminals| && 0 <= j < |ts| && ts[j] == r.terminals[k]
        ensures r.handlingTimes[k] == hs[j]
      {
        if ts[0] in vs {
          KeptMember(tt, ht, vs, r.terminals[k]);
          assert j != 0 && tt[j - 1] == ts[j];
        } else if k > 0 {
          assert r.terminals[k] == rest.terminals[k - 1] && r.handlingTimes[k] == rest.handlingTimes[k - 1];
          KeptMember(tt, ht, vs, rest.terminals[k - 1]);
          assert j != 0 && tt[j - 1] == ts[j];
        }
      }
    }
  }

  /** The drop loop of recalculateRotation: for every visited terminal in
      turn, remove the handling time at its index and then the terminal. */
  function DropVisited(ts: seq<TerminalId>, hs: seq<int>, vs: seq<TerminalId>): (r: Assignment)
    requires |hs| == |ts| && Distinct(vs)
    requires forall k | 0 <= k < |vs| :: vs[k] in ts
    ensures |r.terminals| == |r.handlingTimes| == |ts| - |vs|
    decreases |vs|
  {
    if |vs| == 0 then Assignment(ts, hs)
    else
      var i := IndexOf(ts, vs[0]);
      var ts' := ts[..i] + ts[i + 1..];
      var hs' := hs[..i] + hs[i + 1..];
      assert forall k | 1 <= k < |vs| :: vs[k] in ts' by {
        forall k | 1 <= k < |vs| ensures vs[k] in ts' {
          var j :| 0 <= j < |ts| && ts[j] == vs[k];
          assert j != i;
          if j < i { assert ts'[j] == vs[k]; } else { assert ts'[j - 1] == vs[k]; }
        }
      }
      DropVisited(ts', hs', vs[1..])
  }

  /** Membership in the visited list only matters for the terminals present. */
  lemma {:induction false} KeepSameVisited(ts: seq<TerminalId>, hs: seq<int>, vs: seq<TerminalId>, ws: seq<TerminalId>)
    requires |hs| == |ts|
    requires forall k | 0 <= k < |ts| :: ts[k] in vs <==> ts[k] in ws
    ensures KeepUnvisited(ts, hs, vs) == KeepUnvisited(ts, hs, ws)
  {
    if |ts| > 0 {
      KeepSameVisited(ts[1..], hs[1..], vs, ws);
    }
  }

  /** Removing the only occurrence of the first visited terminal is the
      filter with that terminal taken off the visited list. */
  lemma {:induction false} KeepRemoveOne(ts: seq<TerminalId>, hs: seq<int>, vs: seq<TerminalId>, i: nat)
    requires |hs| == |ts| && Distinct(ts) && |vs| > 0 && i < |ts| && ts[i] == vs[0]
    ensures KeepUnvisited(ts[..i] + ts[i + 1..], hs[..i] + hs[i + 1..], vs[1..]) == KeepUnvisited(ts, hs, vs)
  {
    if i == 0 {
      assert ts[..i] + ts[i + 1..] == ts[1..] && hs[..i] + hs[i + 1..] == hs[1..];
      KeepRemoveHead(ts, hs, vs);
    } else {
      var tt, ht := ts[1..], hs[1..];
      DistinctTail(ts);
      KeepRemoveOne(tt, ht, vs, i - 1);
      CutCons(ts, i);
      CutCons(hs, i);
      var c, ch := ts[..i] + ts[i + 1..], hs[..i] + hs[i + 1..];
      var rest := KeepUnvisited(c[1..], ch[1..], vs[1..]);
      assert rest == KeepUnvisited(tt, ht, vs);
      assert ts[0] != vs[0];
      assert vs == [vs[0]] + vs[1..];
      assert ts[0] in vs[1..] <==> ts[0] in vs;
    }
  }

  /** KeepRemoveOne when the visited terminal heads the list. */
  lemma KeepRemoveHead(ts: seq<TerminalId>, hs: seq<int>, vs: seq<TerminalId>)
    requires |hs| == |ts| && Distinct(ts) && |vs| > 0 && 0 < |ts| && ts[0] == vs[0]
    ensures KeepUnvisited(ts[1..], hs[1..], vs[1..]) == KeepUnvisited(ts, hs, vs)
  {
    var tt := ts[1..];
    forall k | 0 <= k < |tt| ensures tt[k] in vs[1..] <==> tt[k] in vs {
      assert tt[k] == ts[k + 1] != vs[0];
      assert vs == [vs[0]] + vs[1..];
    }
    KeepSameVisited(tt, hs[1..], vs[1..], vs);
  }

  lemma DistinctTail(ts: seq<TerminalId>)
    requires Distinct(ts) && |ts| > 0
    ensures Distinct(ts[1..]) && ts[0] !in ts[1..]
  {
    var tt := ts[1..];
    forall a, b | 0 <= a < b < |tt| ensures tt[a] != tt[b] { assert tt[a] == ts[a + 1] && tt[b] == ts[b + 1]; }
  }

  lemma DistinctCut(ts: seq<TerminalId>, i: nat)
    requires Distinct(ts) && i < |ts|
    ensures Distinct(ts[..i] + ts[i + 1..])
  {
    var c := ts[..i] + ts[i + 1..];
    forall a, b | 0 <= a < b < |c| ensures c[a] != c[b] {
      var a' := if a < i then a else a + 1;
      var b' := if b < i then b else b + 1;
      assert c[a] == ts[a'] && c[b] == ts[b'];
    }
  }

  /** Cutting out an element behind the head cuts it out of the tail. */
  lemma CutCons<T>(s: seq<T>, i: nat)
    requires 0 < i < |s|
    ensures var c := s[..i] + s[i + 1..];
            |c| > 0 && c[0] == s[0] && c[1..] == s[1..][..i - 1] + s[1..][i..]
  {
    var c := s[..i] + s[i + 1..];
    var d := s[1..][..i - 1] + s[1..][i..];
    assert |c[1..]| == |d|;
    forall k | 0 <= k < |d| ensures c[1..][k] == d[k] {
      if k < i - 1 { assert c[1..][k] == s[k + 1]; } else { assert c[1..][k] == s[k + 2]; }
    }
  }

  /** With nothing visited, everything is kept. */
  lemma {:induction false} KeepAll(ts: seq<TerminalId>, hs: seq<int>)
    requires |hs| == |ts|
    ensures KeepUnvisited(ts, hs, []) == Assignment(ts, hs)
  {
    if |ts| > 0 {
      KeepAll(ts[1..], hs[1..]);
      assert ts == [ts[0]] + ts[1..] && hs == [hs[0]] + hs[1..];
    }
  }

  /** The drop loop removes exactly the visited terminals and keeps every
      remaining terminal with its own handling time. */
  lemma {:induction false} DropVisitedIsFilter(ts: seq<TerminalId>, hs: seq<int>, vs: seq<TerminalId>)
    requires |hs| == |ts| && Distinct(vs) && Distinct(ts)
    requires forall k | 0 <= k < |vs| :: vs[k] in ts
    ensures DropVisited(ts, hs, vs) == KeepUnvisited(ts, hs, vs)
    decreases |vs|
  {
    if |vs| > 0 {
      var i := IndexOf(ts, vs[0]);
      var ts' := ts[..i] + ts[i + 1..];
      var hs' := hs[..i] + hs[i + 1..];
      DistinctCut(ts, i);
      DistinctTail(vs);
      assert DropVisited(ts, hs, vs) == DropVisited(ts', hs', vs[1..]);
      DropVisitedIsFilter(ts', hs', vs[1..]);
      KeepRemoveOne(ts, hs, vs, i);
    } else {
      KeepAll(ts, hs);
    }
  }

  /** The first loop of recalculateRotation: the barge's appointment is
      removed from the book of every terminal it was to visit. */
  function Cancel(books: seq<Book>, barge: BargeId, ts: seq<TerminalId>): (r: seq<Book>)
    requires forall k | 0 <= k < |ts| :: ts[k] < |books|
    ensures |r| == |books|
    ensures forall x | 0 <= x < |books| && x !in ts :: r[x] == books[x]
    decreases |ts|
  {
    if |ts| == 0 then books
    else
      var t := ts[0];
      var books' := books[t := Remove(books[t], barge)];
      Cancel(books', barge, ts[1..])
  }

  /** With distinct terminals, each of them loses exactly the barge's
      appointment. */
  lemma {:induction false} CancelRemoves(books: seq<Book>, barge: BargeId, ts: seq<TerminalId>)
    requires forall k | 0 <= k < |ts| :: ts[k] < |books|
    requires Distinct(ts)
    ensures var r := Cancel(books, barge, ts);
            forall x | 0 <= x < |books| && x in ts :: r[x] == Remove(books[x], barge)
    decreases |ts|
  {
    if |ts| > 0 {
      var t := ts[0];
      var books' := books[t := Remove(books[t], barge)];
      assert t !in ts[1..];
      CancelRemoves(books', barge, ts[1..]);
    }
  }

  /** Cancelling keeps every book free of duplicate barges and leaves the
      barge in none of the cancelled books. */
  lemma {:induction false} CancelKeepsDistinct(books: seq<Book>, barge: BargeId, ts: seq<TerminalId>)
    requires forall k | 0 <= k < |ts| :: ts[k] < |books|
    requires AllDistinct(books)
    ensures var r := Cancel(books, barge, ts);
            AllDistinct(r) && forall x | 0 <= x < |books| && x in ts :: !Has(r[x], barge)
    decreases |ts|
  {
    if |ts| > 0 {
      var t := ts[0];
      var books' := books[t := Remove(books[t], barge)];
      assert DistinctBarges(books'[t]);
      CancelKeepsDistinct(books', barge, ts[1..]);
    }
  }

  /** The terminals left after the drop still form an itinerary: t0 stays
      first, they stay distinct and known to the port. */
  lemma KeptItinerary(port: Port, books: seq<Book>, books': seq<Book>, ts: seq<TerminalId>, hs: seq<int>,
                      vs: seq<TerminalId>)
    requires Itinerary(port, books, ts, hs) && |books'| == |books| && PortTerminal !in vs
    ensures var r := KeepUnvisited(ts, hs, vs);
            Itinerary(port, books', r.terminals, r.handlingTimes)
  {
    KeptPairs(ts, hs, vs);
  }

  // ---------------------------------------------------------------------------
  // The barge's life cycle: arrival in the port and re-planning
  // ---------------------------------------------------------------------------

  /** The part of a barge a plan fixes: its terminals with their handling
      times, the sailing matrix over them, the tour and its bookings. */
  datatype Rotation = Rotation(terminals: seq<TerminalId>, handlingTimes: seq<int>, sail: seq<seq<int>>,
                               bestNodes: seq<nat>, bookings: seq<Booking>)

  function RotationOf(b: Barge): Rotation {
    Rotation(b.terminals, b.handlingTimes, b.sail, b.bestNodes, b.bookings)
  }

  /** `route` leaves the port no later than the tour of any visiting order
      of all the nodes. */
  ghost predicate LeastLeave(inst: Instance, start: int, route: seq<nat>)
    requires Valid(inst) && |route| >= 2 && NodesIn(route, NumNodes(inst))
  {
    forall perm {:trigger ValidOrder(perm, NumNodes(inst))} | ValidOrder(perm, NumNodes(inst)) && |perm| == NumNodes(inst) ::
      RouteLeaveTime(inst, start, route) <= RouteLeaveTime(inst, start, [0] + perm + [0])
  }

  /** The rotation is a plan for `books` at `now`: a tour over its
      terminals whose leave time is the least over every visiting order,
      with one booking per node, at that node's terminal, the last of which
      arrives at the port exit exactly at that leave time. */
  ghost predicate Planned(port: Port, books: seq<Book>, r: Rotation, now: int) {
    && 1 <= |r.terminals| && |r.handlingTimes| == |r.terminals|
    && (forall k | 0 <= k < |r.terminals| :: r.terminals[k] < |books|)
    && |r.sail| == |r.terminals| && (forall i | 0 <= i < |r.sail| :: |r.sail[i]| == |r.terminals|)
    && Valid(PlanInstance(port, books, r.terminals, r.handlingTimes, r.sail, now))
    && IsTour(r.bestNodes, |r.terminals| - 1) && NodesIn(r.bestNodes, |r.terminals| - 1)
    && |r.bookings| == |r.bestNodes|
    && (forall k {:trigger r.bookings[k]} | 0 <= k < |r.bookings| :: r.bookings[k].terminal == r.terminals[r.bestNodes[k]])
    && var inst := PlanInstance(port, books, r.terminals, r.handlingTimes, r.sail, now);
       && r.bookings[|r.bookings| - 1].lat == RouteLeaveTime(inst, now, r.bestNodes)
       && LeastLeave(inst, now, r.bestNodes)
  }

  /** A freshly planned barge: its lists agree, its tour runs over its
      terminals, and the whole tour still lies ahead. */
  predicate Sailable(b: Barge) {
    && 1 <= |b.terminals| && |b.handlingTimes| == |b.terminals|
    && |b.sail| == |b.terminals| && (forall i | 0 <= i < |b.sail| :: |b.sail[i]| == |b.terminals|)
    && IsTour(b.bestNodes, |b.terminals| - 1) && b.remaining == b.bestNodes
  }

  /** The tail shared by the constructor and a re-plan: with the route
      just planned as the remaining route, sail its first leg. The barge is
      then on the new route, at its first leg, and its plan is unchanged. */
  function SetSail(b: Barge, time: int): (m: Moved)
    requires Sailable(b)
    ensures OnRoute(m.barge, b.bestNodes, 0, b.totalSailing)
    ensures RotationOf(m.barge) == RotationOf(b) && m.barge.(totalSailing := b.totalSailing) == b
    ensures m.event == Event(time + b.sail[b.bestNodes[0]][b.bestNodes[1]], RandomPriority,
                             ArriveAtTerminal(b.number, b.terminals[b.bestNodes[1]]))
  {
    TourNodes(b.bestNodes, |b.terminals| - 1);
    ScheduleArrivalTerminal(b, b.bestNodes, time)
  }

  /** What the constructor and a re-plan share: plan a rotation over `ts`
      from `now` and register it, into the barge `base`, which then sails
      along it with nothing visited yet. */
  method PlanRotation(port: Port, books: seq<Book>, base: Barge, ts: seq<TerminalId>, hs: seq<int>, now: int)
    returns (b: Barge, out: seq<Book>)
    requires PortOk(port) && Itinerary(port, books, ts, hs)
    ensures Planned(port, books, RotationOf(b), now) && b.terminals == ts && b.handlingTimes == hs
    ensures b.visited == [] && b.state == Sailing && Sailable(b)
    ensures b.(terminals := base.terminals, handlingTimes := base.handlingTimes, visited := base.visited,
               sail := base.sail, bestNodes := base.bestNodes, bookings := base.bookings,
               remaining := base.remaining, state := base.state) == base
    ensures forall i, j {:trigger b.sail[i][j]} | 0 <= i < |ts| && 0 <= j < |ts| :: b.sail[i][j] == port.table[ts[i]][ts[j]]
    ensures |out| == |books|
    ensures forall x | 0 <= x < |books| && x !in ts :: out[x] == books[x]
    ensures AllDistinct(books) ==> AllDistinct(out)
    ensures AllDistinct(books) ==> forall x | 0 <= x < |books| :: Remove(out[x], b.number) == Remove(books[x], b.number)
    ensures AllDistinct(books) ==> forall k | 0 <= k < |b.bestNodes| :: Has(out[ts[b.bestNodes[k]]], b.number)
  {
    var sail, sol := PlanRoute(port, books, ts, hs, now);
    var bookings;
    out, bookings := RegisterRotation(port, books, base.number, ts, hs, now, sail, sol.bestNodes, sol.bestLeaveTime);
    b := base.(terminals := ts, handlingTimes := hs, visited := [], sail := sail, bestNodes := sol.bestNodes,
               bookings := bookings, remaining := sol.bestNodes, state := Sailing);
  }

  /** The Barge constructor: plan the rotation from the arrival time,
      promise its leave time, register the appointments and sail for the
      first terminal. The promised leave time is the least over every
      visiting order, and it is the latest arrival time of the appointment
      registered at the port exit. */
  method NewBarge(port: Port, books: seq<Book>, number: BargeId, arrivalTime: int,
                  ts: seq<TerminalId>, hs: seq<int>)
    returns (b: Barge, out: seq<Book>, ev: Event)
    requires PortOk(port) && Itinerary(port, books, ts, hs)
    ensures b.number == number && b.arrivalTime == arrivalTime
    ensures b.terminals == ts && b.handlingTimes == hs && b.visited == [] && b.state == Sailing
    ensures Planned(port, books, RotationOf(b), arrivalTime) && OnRoute(b, b.bestNodes, 0, 0)
    ensures forall i, j {:trigger b.sail[i][j]} | 0 <= i < |ts| && 0 <= j < |ts| :: b.sail[i][j] == port.table[ts[i]][ts[j]]
    ensures b.expectedLeave == b.bookings[|b.bookings| - 1].lat
    ensures b.bestSTime == b.expectedLeave - arrivalTime
    ensures b.totalHandling == b.totalWaiting == 0
    ensures ev == Event(arrivalTime + b.sail[b.bestNodes[0]][b.bestNodes[1]], RandomPriority,
                        ArriveAtTerminal(number, ts[b.bestNodes[1]]))
    ensures |out| == |books|
    ensures forall x | 0 <= x < |books| && x !in ts :: out[x] == books[x]
    ensures AllDistinct(books) ==> AllDistinct(out)
    ensures AllDistinct(books) ==> forall x | 0 <= x < |books| :: Remove(out[x], number) == Remove(books[x], number)
    ensures AllDistinct(books) ==> forall k | 0 <= k < |b.bestNodes| :: Has(out[ts[b.bestNodes[k]]], number)
  {
    var base := Barge(number, arrivalTime, ts, hs, [], [], [], 0, 0, [], [], Sailing, 0, 0, 0, 0, 0, 0);
    var planned;
    planned, out := PlanRotation(port, books, base, ts, hs, arrivalTime);
    var leave := planned.bookings[|planned.bookings| - 1].lat;
    var m := SetSail(planned.(expectedLeave := leave, bestSTime := leave - arrivalTime), arrivalTime);
    b, ev := m.barge, m.event;
  }

  /** The first half of recalculateRotation: cancel the barge's
      appointments at all its terminals and drop the visited ones; what is
      left is an itinerary on the cancelled books, without the visited
      terminals or any terminal the barge did not have. */
  method ClearRotation(port: Port, books: seq<Book>, b: Barge) returns (cleared: seq<Book>, kept: Assignment)
    requires Itinerary(port, books, b.terminals, b.handlingTimes)
    requires Distinct(b.visited)
    requires forall k | 0 <= k < |b.visited| :: b.visited[k] in b.terminals && b.visited[k] != PortTerminal
    ensures cleared == Cancel(books, b.number, b.terminals) && |cleared| == |books|
    ensures kept == KeepUnvisited(b.terminals, b.handlingTimes, b.visited)
    ensures Itinerary(port, cleared, kept.terminals, kept.handlingTimes)
    ensures forall t :: t in kept.terminals ==> t in b.terminals && t !in b.visited
  {
    cleared := Cancel(books, b.number, b.terminals);
    kept := DropVisited(b.terminals, b.handlingTimes, b.visited);
    DropVisitedIsFilter(b.terminals, b.handlingTimes, b.visited);
    KeptItinerary(port, books, cleared, b.terminals, b.handlingTimes, b.visited);
    forall t | t in kept.terminals ensures t in b.terminals && t !in b.visited {
      KeptMember(b.terminals, b.handlingTimes, b.visited, t);
    }
  }

  /** Registering a new rotation on the cancelled books leaves the barge
      booked nowhere among the terminals it already visited, and touches
      no book of a terminal it never had. */
  lemma ReplanBooks(books: seq<Book>, cleared: seq<Book>, out: seq<Book>, number: BargeId,
                    ts: seq<TerminalId>, vs: seq<TerminalId>, kts: seq<TerminalId>)
    requires forall k | 0 <= k < |ts| :: ts[k] < |books|
    requires cleared == Cancel(books, number, ts) && |out| == |books|
    requires forall k | 0 <= k < |vs| :: vs[k] in ts
    requires forall t :: t in kts ==> t in ts && t !in vs
    requires forall x | 0 <= x < |books| && x !in kts :: out[x] == cleared[x]
    requires AllDistinct(cleared) ==> AllDistinct(out)
    ensures forall x | 0 <= x < |books| && x !in ts :: out[x] == books[x]
    ensures AllDistinct(books) ==> AllDistinct(out)
    ensures AllDistinct(books) ==> forall k | 0 <= k < |vs| :: !Has(out[vs[k]], number)
  {
    if AllDistinct(books) {
      CancelKeepsDistinct(books, number, ts);
    }
  }

  /** The second half of recalculateRotation: plan and register a new
      rotation over the kept terminals on the cleared books, and sail at
      once. The barge keeps everything else, its sailing total included. */
  method ReplanRotation(port: Port, cleared: seq<Book>, b: Barge, kept: Assignment, time: int)
    returns (nb: Barge, out: seq<Book>, ev: Event)
    requires PortOk(port) && Itinerary(port, cleared, kept.terminals, kept.handlingTimes)
    ensures nb.terminals == kept.terminals && nb.handlingTimes == kept.handlingTimes
    ensures nb.visited == [] && nb.state == Sailing
    ensures Planned(port, cleared, RotationOf(nb), time)
    ensures OnRoute(nb, nb.bestNodes, 0, b.totalSailing)
    ensures nb.(terminals := b.terminals, handlingTimes := b.handlingTimes, visited := b.visited, sail := b.sail,
                bestNodes := b.bestNodes, bookings := b.bookings, remaining := b.remaining, state := b.state,
                totalSailing := b.totalSailing) == b
    ensures ev == Event(time + nb.sail[nb.bestNodes[0]][nb.bestNodes[1]], RandomPriority,
                        ArriveAtTerminal(b.number, nb.terminals[nb.bestNodes[1]]))
    ensures |out| == |cleared|
    ensures forall x | 0 <= x < |cleared| && x !in kept.terminals :: out[x] == cleared[x]
    ensures AllDistinct(cleared) ==> AllDistinct(out)
    ensures AllDistinct(cleared) ==> forall k | 0 <= k < |nb.bestNodes| :: Has(out[nb.terminals[nb.bestNodes[k]]], b.number)
  {
    var planned;
    planned, out := PlanRotation(port, cleared, b, kept.terminals, kept.handlingTimes, time);
    var m := SetSail(planned, time);
    nb, ev := m.barge, m.event;
  }

  /** recalculateRotation: cancel every appointment of the barge, drop the
      terminals already visited with their handling times, and plan and
      register a new rotation from `time` over the rest, sailing at once.
      The promised leave time and the statistics so far are kept. */
  method RecalculateRotation(port: Port, books: seq<Book>, b: Barge, time: int)
    returns (nb: Barge, out: seq<Book>, ev: Event)
    requires PortOk(port) && Itinerary(port, books, b.terminals, b.handlingTimes)
    requires Distinct(b.visited)
    requires forall k | 0 <= k < |b.visited| :: b.visited[k] in b.terminals && b.visited[k] != PortTerminal
    ensures Assignment(nb.terminals, nb.handlingTimes) == KeepUnvisited(b.terminals, b.handlingTimes, b.visited)
    ensures nb.visited == [] && nb.state == Sailing
    ensures Planned(port, Cancel(books, b.number, b.terminals), RotationOf(nb), time)
    ensures OnRoute(nb, nb.bestNodes, 0, b.totalSailing)
    ensures nb.(terminals := b.terminals, handlingTimes := b.handlingTimes, visited := b.visited, sail := b.sail,
                bestNodes := b.bestNodes, bookings := b.bookings, remaining := b.remaining, state := b.state,
                totalSailing := b.totalSailing) == b
    ensures ev == Event(time + nb.sail[nb.bestNodes[0]][nb.bestNodes[1]], RandomPriority,
                        ArriveAtTerminal(b.number, nb.terminals[nb.bestNodes[1]]))
    ensures |out| == |books|
    ensures forall x | 0 <= x < |books| && x !in b.terminals :: out[x] == books[x]
    ensures AllDistinct(books) ==> AllDistinct(out)
    ensures AllDistinct(books) ==> forall k | 0 <= k < |b.visited| :: !Has(out[b.visited[k]], b.number)
    ensures AllDistinct(books) ==> forall k | 0 <= k < |nb.bestNodes| :: Has(out[nb.terminals[nb.bestNodes[k]]], b.number)
  {
    var cleared, kept := ClearRotation(port, books, b);
    nb, out, ev := ReplanRotation(port, cleared, b, kept, time);
    if AllDistinct(books) {
      CancelKeepsDistinct(books, b.number, b.terminals);
    }
    ReplanBooks(books, cleared, out, b.number, b.terminals, b.visited, kept.terminals);
  }
}
