/** The time-dependent TSP solver (src/tdtsp/TDTSP.java): a backtracking
    search over partial solutions that records every accepted tour with the
    time the barge would leave the port, then picks the best tour. */
module Tdtsp {
  import opened PartialSolutions
  import opened Stages
  import opened ListQueries

  /** An accepted tour: the route, depot to depot, and the leave time. */
  datatype Tour = Tour(route: seq<nat>, cost: int)

  /** The state solve threads through the recursion: the stage log and the
      accepted tours. */
  datatype Search = Search(stage: Stage, tours: seq<Tour>)

  /** solve: travel to the partial solution's last node, log it, and either
      return to the depot (every node visited) or try every extension. */
  function Solve(inst: Instance, ps: PartialSolution, time: int, pred: seq<nat>, st: Stage, acc: seq<Tour>): Search
    requires Valid(inst) && WellFormedSolution(ps, NumNodes(inst))
    decreases NumNodes(inst) - NumVisited(ps.current, NumNodes(inst)), 1, 0
  {
    var n := NumNodes(inst);
    var t := time + TimeDependentTravelTime(inst, ps, time);
    var last := LastNode(ps.current, n);
    var route := pred + [last];
    var st' := Record(st, t, ps.current, route);
    if Examine(ps.current, n) == Accept then
      Search(st', acc + [Tour(route + [0], t + ComputeCost(inst, last, 0))])
    else
      SolveChildren(inst, Children(ps.current, n), NumVisited(ps.current, n), t, route, st', acc)
  }

  /** The loop of solve over the children, in order. */
  function SolveChildren(inst: Instance, cs: seq<PartialSolution>, v: nat, time: int, pred: seq<nat>,
                         st: Stage, acc: seq<Tour>): Search
    requires Valid(inst) && v < NumNodes(inst)
    requires forall k | 0 <= k < |cs| ::
               WellFormedSolution(cs[k], NumNodes(inst)) && NumVisited(cs[k].current, NumNodes(inst)) == v + 1
    decreases NumNodes(inst) - v, 0, |cs|
  {
    if |cs| == 0 then Search(st, acc)
    else
      var r := Solve(inst, cs[0], time, pred, st, acc);
      SolveChildren(inst, cs[1..], v, time, pred, r.stage, r.tours)
  }

  // ---------------------------------------------------------------------------
  // The same search over visiting orders

  /** The search with the strings replaced by the visiting order they
      encode: `o` is the node the barge departs from at `time`. */
  function Explore(inst: Instance, o: nat, order: seq<nat>, time: int, route: seq<nat>, acc: seq<Tour>): seq<Tour>
    requires Valid(inst) && ValidOrder(order, NumNodes(inst)) && |order| <= NumNodes(inst) && o <= NumNodes(inst)
    decreases NumNodes(inst) - |order|, 1, 0
  {
    var n := NumNodes(inst);
    var d := LastOf(order);
    var t := time + Arc(inst, o, d, time);
    if |order| == n then acc + [Tour(route + [d] + [0], t + inst.sail[d][0])]
    else ExploreChildren(inst, order, UnvisitedFrom(order, n, 1), t, route + [d], acc)
  }

  function ExploreChildren(inst: Instance, order: seq<nat>, js: seq<nat>, time: int, route: seq<nat>,
                           acc: seq<Tour>): seq<Tour>
    requires Valid(inst) && ValidOrder(order, NumNodes(inst)) && |order| < NumNodes(inst)
    requires forall k | 0 <= k < |js| :: 1 <= js[k] <= NumNodes(inst) && js[k] !in order
    decreases NumNodes(inst) - |order|, 0, |js|
  {
    if |js| == 0 then acc
    else
      ExtendOrder(order, NumNodes(inst), js[0]);
      ExploreChildren(inst, order, js[1..], time, route,
                      Explore(inst, LastOf(order), order + [js[0]], time, route, acc))
  }

  /** The string search does exactly what the order search does. */
  lemma {:induction false} SolveIsExplore(inst: Instance, order: seq<nat>, prev: BitString, time: int,
                                          pred: seq<nat>, st: Stage, acc: seq<Tour>)
    requires Valid(inst) && ValidOrder(order, NumNodes(inst)) && |order| <= NumNodes(inst)
    requires WellFormed(prev, NumNodes(inst)) && WellFormed(Enc(order, NumNodes(inst)), NumNodes(inst))
    ensures Solve(inst, PartialSolution(Enc(order, NumNodes(inst)), prev), time, pred, st, acc).tours
            == Explore(inst, LastNode(prev, NumNodes(inst)), order, time, pred, acc)
    decreases NumNodes(inst) - |order|, 1, 0
  {
    var n := NumNodes(inst);
    if |order| < n {
      var t := time + Arc(inst, LastNode(prev, n), LastOf(order), time);
      var route := pred + [LastOf(order)];
      var st' := Record(st, t, Enc(order, n), route);
      var js := UnvisitedFrom(order, n, 1);
      ContinueStep(inst, order, prev, time, pred, st, acc, t, route, js);
      ExploreContinues(inst, LastNode(prev, n), order, time, pred, acc, t);
      SolveChildrenIsExplore(inst, order, js, t, route, st', acc);
    } else {
      AcceptStep(inst, order, prev, time, pred, st, acc);
    }
  }

  /** A complete order: both searches append the same tour. */
  lemma AcceptStep(inst: Instance, order: seq<nat>, prev: BitString, time: int,
                   pred: seq<nat>, st: Stage, acc: seq<Tour>)
    requires Valid(inst) && ValidOrder(order, NumNodes(inst)) && |order| == NumNodes(inst)
    requires WellFormed(prev, NumNodes(inst)) && WellFormed(Enc(order, NumNodes(inst)), NumNodes(inst))
    ensures Solve(inst, PartialSolution(Enc(order, NumNodes(inst)), prev), time, pred, st, acc).tours
            == Explore(inst, LastNode(prev, NumNodes(inst)), order, time, pred, acc)
  {
    var n := NumNodes(inst);
    EncFacts(order, n);
    var ps := PartialSolution(Enc(order, n), prev);
    assert TimeDependentTravelTime(inst, ps, time) == Arc(inst, LastNode(prev, n), LastOf(order), time);
    assert Examine(ps.current, n) == Accept;
  }

  /** An incomplete order: both searches go on with the same children, the
      string search with their encodings. */
  lemma ContinueStep(inst: Instance, order: seq<nat>, prev: BitString, time: int, pred: seq<nat>, st: Stage,
                     acc: seq<Tour>, t: int, route: seq<nat>, js: seq<nat>)
    requires Valid(inst) && ValidOrder(order, NumNodes(inst)) && |order| < NumNodes(inst)
    requires WellFormed(prev, NumNodes(inst)) && WellFormed(Enc(order, NumNodes(inst)), NumNodes(inst))
    requires t == time + Arc(inst, LastNode(prev, NumNodes(inst)), LastOf(order), time)
    requires route == pred + [LastOf(order)] && js == UnvisitedFrom(order, NumNodes(inst), 1)
    ensures forall k | 0 <= k < |js| :: 1 <= js[k] <= NumNodes(inst) && js[k] !in order
    ensures Solve(inst, PartialSolution(Enc(order, NumNodes(inst)), prev), time, pred, st, acc).tours
            == SolveChildren(inst, EncChildren(order, NumNodes(inst), js), |order|, t, route,
                             Record(st, t, Enc(order, NumNodes(inst)), route), acc).tours
  {
    var n := NumNodes(inst);
    EncFacts(order, n);
    var ps := PartialSolution(Enc(order, n), prev);
    assert TimeDependentTravelTime(inst, ps, time) == Arc(inst, LastNode(prev, n), LastOf(order), time);
    SolveContinues(inst, ps, time, pred, st, acc, t, route);
    ChildrenEnc(order, n, 1);
    var cs := Children(ps.current, n);
    assert cs == EncChildren(order, n, js);
  }

  /** One step of solve on a partial solution that is not complete: it
      travels to the last node at `t`, logs the route so far, and goes on
      with the children. */
  lemma SolveContinues(inst: Instance, ps: PartialSolution, time: int, pred: seq<nat>, st: Stage, acc: seq<Tour>,
                       t: int, route: seq<nat>)
    requires Valid(inst) && WellFormedSolution(ps, NumNodes(inst))
    requires NumVisited(ps.current, NumNodes(inst)) < NumNodes(inst)
    requires t == time + TimeDependentTravelTime(inst, ps, time)
    requires route == pred + [LastNode(ps.current, NumNodes(inst))]
    ensures Solve(inst, ps, time, pred, st, acc)
            == SolveChildren(inst, Children(ps.current, NumNodes(inst)), NumVisited(ps.current, NumNodes(inst)), t, route,
                             Record(st, t, ps.current, route), acc)
  {
  }

  lemma {:induction false} SolveChildrenIsExplore(inst: Instance, order: seq<nat>, js: seq<nat>, time: int,
                                                  pred: seq<nat>, st: Stage, acc: seq<Tour>)
    requires Valid(inst) && ValidOrder(order, NumNodes(inst)) && |order| < NumNodes(inst)
    requires forall k | 0 <= k < |js| :: 1 <= js[k] <= NumNodes(inst) && js[k] !in order
    ensures SolveChildren(inst, EncChildren(order, NumNodes(inst), js), |order|, time, pred, st, acc).tours
            == ExploreChildren(inst, order, js, time, pred, acc)
    decreases NumNodes(inst) - |order|, 0, |js|
  {
    var n := NumNodes(inst);
    if |js| > 0 {
      var cs := EncChildren(order, n, js);
      EncChildrenFacts(order, n, js);
      EncFacts(order, n);
      SolveIsExplore(inst, order + [js[0]], Enc(order, n), time, pred, st, acc);
      var r := Solve(inst, cs[0], time, pred, st, acc);
      assert cs[1..] == EncChildren(order, n, js[1..]);
      SolveChildrenIsExplore(inst, order, js[1..], time, pred, r.stage, r.tours);
    }
  }

  // ---------------------------------------------------------------------------
  // What the search computes

  predicate NodesIn(nodes: seq<nat>, n: nat) {
    forall k | 0 <= k < |nodes| :: nodes[k] <= n
  }

  function LastOr(nodes: seq<nat>, default: nat): nat {
    if |nodes| == 0 then default else nodes[|nodes| - 1]
  }

  /** The time at the end of the legs prev -> nodes[0] -> nodes[1] -> ...,
      starting at time t, each leg taking its time-dependent travel time. */
  function Walk(inst: Instance, t: int, prev: nat, nodes: seq<nat>): int
    requires Valid(inst) && prev <= NumNodes(inst) && NodesIn(nodes, NumNodes(inst))
    decreases |nodes|
  {
    if |nodes| == 0 then t
    else Walk(inst, t + Arc(inst, prev, nodes[0], t), nodes[0], nodes[1..])
  }

  /** A tour: from the depot through every node exactly once back to the
      depot. */
  predicate IsTour(route: seq<nat>, n: nat) {
    |route| == n + 2 && route[0] == 0 && route[n + 1] == 0 && ValidOrder(route[1..n + 1], n)
  }

  /** The leave time of `route` for a barge at the port at `start`: the
      time-dependent legs up to the last node (the first one from the port
      entrance to itself), then the plain sailing time back to the port. */
  function RouteLeaveTime(inst: Instance, start: int, route: seq<nat>): int
    requires Valid(inst) && |route| >= 2 && NodesIn(route, NumNodes(inst))
  {
    var legs := route[..|route| - 1];
    Walk(inst, start, 0, legs) + inst.sail[legs[|legs| - 1]][0]
  }

  /** Appending an in-range node keeps a sequence of nodes in range. */
  lemma NodesSnoc(nodes: seq<nat>, y: nat, n: nat)
    requires NodesIn(nodes, n) && y <= n
    ensures NodesIn(nodes + [y], n)
  {
    var s := nodes + [y];
    forall k | 0 <= k < |s| ensures s[k] <= n {
      if k < |nodes| {
        assert s[k] == nodes[k];
      }
    }
  }

  lemma {:induction false} WalkSnoc(inst: Instance, t: int, prev: nat, nodes: seq<nat>, y: nat)
    requires Valid(inst) && prev <= NumNodes(inst) && NodesIn(nodes, NumNodes(inst)) && y <= NumNodes(inst)
    ensures NodesIn(nodes + [y], NumNodes(inst))
    ensures Walk(inst, t, prev, nodes + [y])
         == Walk(inst, t, prev, nodes) + Arc(inst, LastOr(nodes, prev), y, Walk(inst, t, prev, nodes))
    decreases |nodes|
  {
    var s := nodes + [y];
    NodesSnoc(nodes, y, NumNodes(inst));
    if |nodes| > 0 {
      var t' := t + Arc(inst, prev, nodes[0], t);
      assert s[0] == nodes[0] && s[1..] == nodes[1..] + [y];
      WalkSnoc(inst, t', nodes[0], nodes[1..], y);
      assert Walk(inst, t, prev, s) == Walk(inst, t', nodes[0], nodes[1..] + [y]);
      assert Walk(inst, t, prev, nodes) == Walk(inst, t', nodes[0], nodes[1..]);
      assert LastOr(nodes, prev) == LastOr(nodes[1..], nodes[0]);
    } else {
      assert s == [y];
    }
  }

  lemma OrderNodes(order: seq<nat>, n: nat)
    requires ValidOrder(order, n)
    ensures NodesIn([0] + order, n)
  {
  }

  lemma ExploreAccepts(inst: Instance, o: nat, order: seq<nat>, time: int, route: seq<nat>, acc: seq<Tour>, t: int)
    requires Valid(inst) && ValidOrder(order, NumNodes(inst)) && |order| == NumNodes(inst) && o <= NumNodes(inst)
    requires t == time + Arc(inst, o, LastOf(order), time)
    ensures Explore(inst, o, order, time, route, acc)
            == acc + [Tour(route + [LastOf(order)] + [0], t + inst.sail[LastOf(order)][0])]
  {
  }

  lemma ExploreContinues(inst: Instance, o: nat, order: seq<nat>, time: int, route: seq<nat>, acc: seq<Tour>, t: int)
    requires Valid(inst) && ValidOrder(order, NumNodes(inst)) && |order| < NumNodes(inst) && o <= NumNodes(inst)
    requires t == time + Arc(inst, o, LastOf(order), time)
    ensures Explore(inst, o, order, time, route, acc)
            == ExploreChildren(inst, order, UnvisitedFrom(order, NumNodes(inst), 1), t, route + [LastOf(order)], acc)
  {
  }

  /** The search only appends to the tours it is given. */
  lemma {:induction false} ExploreKeepsTours(inst: Instance, o: nat, order: seq<nat>, time: int, route: seq<nat>, acc: seq<Tour>)
    requires Valid(inst) && ValidOrder(order, NumNodes(inst)) && |order| <= NumNodes(inst) && o <= NumNodes(inst)
    ensures var r := Explore(inst, o, order, time, route, acc);
            |r| >= |acc| && r[..|acc|] == acc
    decreases NumNodes(inst) - |order|, 1, 0
  {
    var n := NumNodes(inst);
    if |order| < n {
      var t := time + Arc(inst, o, LastOf(order), time);
      ExploreChildrenKeepsTours(inst, order, UnvisitedFrom(order, n, 1), t, route + [LastOf(order)], acc);
    }
  }

  lemma {:induction false} ExploreChildrenKeepsTours(inst: Instance, order: seq<nat>, js: seq<nat>, time: int,
                                                     route: seq<nat>, acc: seq<Tour>)
    requires Valid(inst) && ValidOrder(order, NumNodes(inst)) && |order| < NumNodes(inst)
    requires forall k | 0 <= k < |js| :: 1 <= js[k] <= NumNodes(inst) && js[k] !in order
    ensures var r := ExploreChildren(inst, order, js, time, route, acc);
            |r| >= |acc| && r[..|acc|] == acc
    decreases NumNodes(inst) - |order|, 0, |js|
  {
    if |js| > 0 {
      ExtendOrder(order, NumNodes(inst), js[0]);
      var r1 := Explore(inst, LastOf(order), order + [js[0]], time, route, acc);
      ExploreKeepsTours(inst, LastOf(order), order + [js[0]], time, route, acc);
      ExploreChildrenKeepsTours(inst, order, js[1..], time, route, r1);
    }
  }

  /** Every tour the search accepts is a tour, and its recorded cost is its
      leave time. */
  lemma {:induction false} ExploreSound(inst: Instance, start: int, o: nat, order: seq<nat>, time: int,
                                        route: seq<nat>, acc: seq<Tour>)
    requires Valid(inst) && ValidOrder(order, NumNodes(inst)) && |order| <= NumNodes(inst)
    requires route + [LastOf(order)] == [0] + order
    requires NodesIn(route, NumNodes(inst)) && o == LastOr(route, 0) && time == Walk(inst, start, 0, route)
    ensures var r := Explore(inst, o, order, time, route, acc);
            forall k | |acc| <= k < |r| :: GoodTour(inst, start, r[k])
    decreases NumNodes(inst) - |order|, 1, 0
  {
    var n := NumNodes(inst);
    var d := LastOf(order);
    OrderNodes(order, n);
    WalkSnoc(inst, start, 0, route, d);
    var t := time + Arc(inst, o, d, time);
    assert t == Walk(inst, start, 0, [0] + order);
    if |order| == n {
      ExploreAccepts(inst, o, order, time, route, acc, t);
      assert route + [d] + [0] == [0] + order + [0];
      CompleteTourGood(inst, start, order, t);
    } else {
      ExploreContinues(inst, o, order, time, route, acc, t);
      ExploreChildrenSound(inst, start, order, UnvisitedFrom(order, n, 1), t, [0] + order, acc);
    }
  }

  lemma {:induction false} ExploreChildrenSound(inst: Instance, start: int, order: seq<nat>, js: seq<nat>,
                                                time: int, route: seq<nat>, acc: seq<Tour>)
    requires Valid(inst) && ValidOrder(order, NumNodes(inst)) && |order| < NumNodes(inst)
    requires forall k | 0 <= k < |js| :: 1 <= js[k] <= NumNodes(inst) && js[k] !in order
    requires route == [0] + order && time == Walk(inst, start, 0, route)
    ensures var r := ExploreChildren(inst, order, js, time, route, acc);
            forall k | |acc| <= k < |r| :: GoodTour(inst, start, r[k])
    decreases NumNodes(inst) - |order|, 0, |js|
  {
    if |js| > 0 {
      var n := NumNodes(inst);
      ExtendOrder(order, n, js[0]);
      OrderNodes(order, n);
      var r1 := Explore(inst, LastOf(order), order + [js[0]], time, route, acc);
      ExploreSound(inst, start, LastOf(order), order + [js[0]], time, route, acc);
      ExploreKeepsTours(inst, LastOf(order), order + [js[0]], time, route, acc);
      ExploreChildrenSound(inst, start, order, js[1..], time, route, r1);
      ExploreChildrenKeepsTours(inst, order, js[1..], time, route, r1);
      GoodTail(inst, start, acc, r1, ExploreChildren(inst, order, js[1..], time, route, r1));
    }
  }

  lemma CompleteTourGood(inst: Instance, start: int, order: seq<nat>, t: int)
    requires Valid(inst) && ValidOrder(order, NumNodes(inst)) && |order| == NumNodes(inst)
    requires NodesIn([0] + order, NumNodes(inst)) && t == Walk(inst, start, 0, [0] + order)
    ensures GoodTour(inst, start, Tour([0] + order + [0], t + inst.sail[LastOf(order)][0]))
  {
    var n := NumNodes(inst);
    var tour := [0] + order + [0];
    assert tour[..|tour| - 1] == [0] + order;
    assert tour[1..n + 1] == order;
    assert ([0] + order)[|order|] == LastOf(order);
  }

  /** An accepted tour is a tour and its recorded cost is its leave time. */
  predicate GoodTour(inst: Instance, start: int, tour: Tour)
    requires Valid(inst)
  {
    IsTour(tour.route, NumNodes(inst)) && tour.cost == RouteLeaveTime(inst, start, tour.route)
  }

  lemma GoodTail(inst: Instance, start: int, acc: seq<Tour>, r1: seq<Tour>, r: seq<Tour>)
    requires Valid(inst)
    requires |acc| <= |r1| <= |r| && r[..|r1|] == r1
    requires forall k | |acc| <= k < |r1| :: GoodTour(inst, start, r1[k])
    requires forall k | |r1| <= k < |r| :: GoodTour(inst, start, r[k])
    ensures forall k | |acc| <= k < |r| :: GoodTour(inst, start, r[k])
  {
    forall k | |acc| <= k < |r| ensures GoodTour(inst, start, r[k]) {
      if k < |r1| {
        assert r[k] == r1[k];
      }
    }
  }

  /** Every ordering of the nodes is among the accepted tours. */
  lemma {:induction false} ExploreComplete(inst: Instance, o: nat, order: seq<nat>, time: int, route: seq<nat>,
                                           acc: seq<Tour>, perm: seq<nat>)
    requires Valid(inst) && ValidOrder(order, NumNodes(inst)) && |order| <= NumNodes(inst) && o <= NumNodes(inst)
    requires ValidOrder(perm, NumNodes(inst)) && |perm| == NumNodes(inst) && perm[..|order|] == order
    requires route + [LastOf(order)] == [0] + order
    ensures Lists(Explore(inst, o, order, time, route, acc), |acc|, [0] + perm + [0])
    decreases NumNodes(inst) - |order|, 1, 0
  {
    var n := NumNodes(inst);
    var t := time + Arc(inst, o, LastOf(order), time);
    if |order| == n {
      CompleteListed(inst, o, order, time, route, acc, perm);
    } else {
      ExploreContinues(inst, o, order, time, route, acc, t);
      var j := perm[|order|];
      NextNotVisited(order, perm);
      UnvisitedComplete(order, n, 1, j);
      ExploreChildrenComplete(inst, order, UnvisitedFrom(order, n, 1), t, [0] + order, acc, perm);
    }
  }

  lemma CompleteListed(inst: Instance, o: nat, order: seq<nat>, time: int, route: seq<nat>,
                       acc: seq<Tour>, perm: seq<nat>)
    requires Valid(inst) && ValidOrder(order, NumNodes(inst)) && |order| == NumNodes(inst) && o <= NumNodes(inst)
    requires |perm| == NumNodes(inst) && perm[..|order|] == order
    requires route + [LastOf(order)] == [0] + order
    ensures Lists(Explore(inst, o, order, time, route, acc), |acc|, [0] + perm + [0])
  {
    ExploreAccepts(inst, o, order, time, route, acc, time + Arc(inst, o, LastOf(order), time));
    assert perm == perm[..|order|];
    var r := Explore(inst, o, order, time, route, acc);
    LastListed(acc, r[|acc|], [0] + perm + [0]);
    assert r == acc + [r[|acc|]];
  }

  lemma LastListed(acc: seq<Tour>, tour: Tour, route: seq<nat>)
    requires tour.route == route
    ensures Lists(acc + [tour], |acc|, route)
  {
    assert (acc + [tour])[|acc|] == tour;
  }

  lemma NextNotVisited(order: seq<nat>, perm: seq<nat>)
    requires |order| < |perm| && perm[..|order|] == order
    requires forall k, l | 0 <= k < l < |perm| :: perm[k] != perm[l]
    ensures perm[|order|] !in order
  {
    forall k | 0 <= k < |order| ensures order[k] != perm[|order|] {
      assert order[k] == perm[k];
    }
  }

  lemma {:induction false} ExploreChildrenComplete(inst: Instance, order: seq<nat>, js: seq<nat>, time: int,
                                                   route: seq<nat>, acc: seq<Tour>, perm: seq<nat>)
    requires Valid(inst) && ValidOrder(order, NumNodes(inst)) && |order| < NumNodes(inst)
    requires forall k | 0 <= k < |js| :: 1 <= js[k] <= NumNodes(inst) && js[k] !in order
    requires ValidOrder(perm, NumNodes(inst)) && |perm| == NumNodes(inst) && perm[..|order|] == order
    requires perm[|order|] in js && route == [0] + order
    ensures Lists(ExploreChildren(inst, order, js, time, route, acc), |acc|, [0] + perm + [0])
    decreases NumNodes(inst) - |order|, 0, |js|
  {
    var n := NumNodes(inst);
    var j := js[0];
    ExtendOrder(order, n, j);
    var r1 := Explore(inst, LastOf(order), order + [j], time, route, acc);
    ExploreKeepsTours(inst, LastOf(order), order + [j], time, route, acc);
    var r := ExploreChildren(inst, order, js, time, route, acc);
    assert r == ExploreChildren(inst, order, js[1..], time, route, r1);
    ExploreChildrenKeepsTours(inst, order, js[1..], time, route, r1);
    if j == perm[|order|] {
      assert perm[..|order| + 1] == order + [j];
      ExploreComplete(inst, LastOf(order), order + [j], time, route, acc, perm);
      FoundKept(acc, r1, r, [0] + perm + [0]);
    } else {
      assert perm[|order|] in js[1..];
      ExploreChildrenComplete(inst, order, js[1..], time, route, r1, perm);
      var k :| |r1| <= k < |r| && r[k].route == [0] + perm + [0];
      assert |acc| <= k;
      assert Lists(r, |acc|, [0] + perm + [0]);
    }
  }

  /** Some tour from index `from` on has route `route`. */
  predicate Lists(tours: seq<Tour>, from: nat, route: seq<nat>) {
    exists k | from <= k < |tours| :: tours[k].route == route
  }

  lemma FoundKept(acc: seq<Tour>, r1: seq<Tour>, r: seq<Tour>, route: seq<nat>)
    requires |r1| <= |r| && r[..|r1|] == r1
    requires Lists(r1, |acc|, route)
    ensures Lists(r, |acc|, route)
  {
    var k :| |acc| <= k < |r1| && r1[k].route == route;
    assert r[..|r1|][k] == r[k];
  }

  function Fact(m: nat): nat {
    if m == 0 then 1 else m * Fact(m - 1)
  }

  lemma {:induction false} UnvisitedNone(n: nat, i: nat)
    requires 1 <= i <= n + 1
    ensures |UnvisitedFrom([], n, i)| == n + 1 - i
    decreases n + 1 - i
  {
    if i <= n {
      UnvisitedNone(n, i + 1);
    }
  }

  lemma {:induction false} UnvisitedDrop(order: seq<nat>, n: nat, j: nat, i: nat)
    requires 1 <= j <= n && j !in order && 1 <= i <= n + 1
    ensures |UnvisitedFrom(order, n, i)| == |UnvisitedFrom(order + [j], n, i)| + (if i <= j then 1 else 0)
    decreases n + 1 - i
  {
    if i <= n {
      UnvisitedDrop(order, n, j, i + 1);
      var inA := i in order;
      var inB := i in order + [j];
      assert inB == (inA || i == j);
      assert |UnvisitedFrom(order, n, i)| == (if inA then 0 else 1) + |UnvisitedFrom(order, n, i + 1)|;
      assert |UnvisitedFrom(order + [j], n, i)| == (if inB then 0 else 1) + |UnvisitedFrom(order + [j], n, i + 1)|;
    }
  }

  /** n - |order| nodes are left to visit. */
  lemma {:induction false} UnvisitedCount(order: seq<nat>, n: nat)
    requires ValidOrder(order, n)
    ensures |order| <= n && |UnvisitedFrom(order, n, 1)| == n - |order|
    decreases |order|
  {
    if |order| == 0 {
      UnvisitedNone(n, 1);
    } else {
      var init := order[..|order| - 1];
      var j := order[|order| - 1];
      assert order == init + [j];
      assert j !in init by {
        forall k | 0 <= k < |init| ensures init[k] != j {
          assert init[k] == order[k];
        }
      }
      UnvisitedCount(init, n);
      UnvisitedDrop(init, n, j, 1);
    }
  }

  /** The search accepts (n - |order|)! tours below a partial solution. */
  lemma {:induction false} ExploreCount(inst: Instance, o: nat, order: seq<nat>, time: int, route: seq<nat>, acc: seq<Tour>)
    requires Valid(inst) && ValidOrder(order, NumNodes(inst)) && |order| <= NumNodes(inst) && o <= NumNodes(inst)
    ensures |Explore(inst, o, order, time, route, acc)| == |acc| + Fact(NumNodes(inst) - |order|)
    decreases NumNodes(inst) - |order|, 1, 0
  {
    var n := NumNodes(inst);
    var d := LastOf(order);
    var t := time + Arc(inst, o, d, time);
    if |order| == n {
      ExploreAccepts(inst, o, order, time, route, acc, t);
    } else {
      ExploreContinues(inst, o, order, time, route, acc, t);
      UnvisitedCount(order, n);
      ExploreChildrenCount(inst, order, UnvisitedFrom(order, n, 1), t, route + [d], acc);
    }
  }

  lemma {:induction false} ExploreChildrenCount(inst: Instance, order: seq<nat>, js: seq<nat>, time: int,
                                                route: seq<nat>, acc: seq<Tour>)
    requires Valid(inst) && ValidOrder(order, NumNodes(inst)) && |order| < NumNodes(inst)
    requires forall k | 0 <= k < |js| :: 1 <= js[k] <= NumNodes(inst) && js[k] !in order
    ensures |ExploreChildren(inst, order, js, time, route, acc)|
         == |acc| + |js| * Fact(NumNodes(inst) - |order| - 1)
    decreases NumNodes(inst) - |order|, 0, |js|
  {
    if |js| > 0 {
      ExtendOrder(order, NumNodes(inst), js[0]);
      var r1 := Explore(inst, LastOf(order), order + [js[0]], time, route, acc);
      ExploreCount(inst, LastOf(order), order + [js[0]], time, route, acc);
      ExploreChildrenCount(inst, order, js[1..], time, route, r1);
      var f := Fact(NumNodes(inst) - |order| - 1);
      assert ExploreChildren(inst, order, js, time, route, acc) == ExploreChildren(inst, order, js[1..], time, route, r1);
      assert |r1| == |acc| + f;
      MulStep(|js|, f);
    }
  }

  lemma MulStep(a: nat, f: int)
    requires a >= 1
    ensures a * f == f + (a - 1) * f
  {
  }

  // ---------------------------------------------------------------------------
  // Choosing the best tour

  /** Routes are written as text: a space and a decimal digit per node. */
  function DigitChar(d: nat): char
    requires d <= 9
  {
    "0123456789"[d]
  }

  /** Integer.parseInt on a one-digit string. */
  function ParseDigit(c: char): nat
    requires '0' <= c <= '9'
  {
    (c as int - '0' as int) as nat
  }

  function RouteString(nodes: seq<nat>): (s: seq<char>)
    requires forall k | 0 <= k < |nodes| :: nodes[k] <= 9
    ensures |s| == 2 * |nodes|
    ensures forall m | 0 <= m < |nodes| :: s[2 * m] == ' ' && s[2 * m + 1] == DigitChar(nodes[m])
  {
    if |nodes| == 0 then []
    else RouteString(nodes[..|nodes| - 1]) + [' ', DigitChar(nodes[|nodes| - 1])]
  }

  lemma DigitRoundTrip(d: nat)
    requires d <= 9
    ensures '0' <= DigitChar(d) <= '9' && DigitChar(d) != ' ' && ParseDigit(DigitChar(d)) == d
  {
  }

  /** A sailing-time matrix over the port and at least one further node. */
  predicate SquareMatrix(sail: seq<seq<int>>) {
    |sail| >= 1 && forall i | 0 <= i < |sail| :: |sail[i]| == |sail|
  }

  /** The sailing time of the first m legs of `nodes`. */
  function LegsSailing(sail: seq<seq<int>>, nodes: seq<nat>, m: nat): int
    requires SquareMatrix(sail) && NodesIn(nodes, |sail| - 1) && m < |nodes|
  {
    if m == 0 then 0 else LegsSailing(sail, nodes, m - 1) + sail[nodes[m - 1]][nodes[m]]
  }

  /** The plain sailing time along a route: the sum over consecutive nodes. */
  function PathSailing(sail: seq<seq<int>>, nodes: seq<nat>): int
    requires SquareMatrix(sail) && NodesIn(nodes, |sail| - 1)
  {
    if |nodes| == 0 then 0 else LegsSailing(sail, nodes, |nodes| - 1)
  }

  /** computeSailingtime: scan the route text and, at every digit, add the
      sailing time to the digit two characters further on. */
  method ComputeSailingtime(sail: seq<seq<int>>, route: seq<char>, ghost nodes: seq<nat>) returns (total: int)
    requires SquareMatrix(sail) && NodesIn(nodes, |sail| - 1)
    requires (forall k | 0 <= k < |nodes| :: nodes[k] <= 9) && route == RouteString(nodes)
    ensures total == PathSailing(sail, nodes)
  {
    total := 0;
    var i := 0;
    ghost var half: nat := 0;
    while i < |route| - 2
      invariant 0 <= i && (|nodes| >= 1 ==> i <= |route| - 2)
      invariant |nodes| == 0 ==> i == 0 && total == 0
      invariant 2 * half <= i <= 2 * half + 1
      invariant |nodes| >= 1 ==> half < |nodes| && total == LegsSailing(sail, nodes, half)
    {
      var c := route[i];
      RouteChar(nodes, half);
      if i == 2 * half + 1 {
        RouteChar(nodes, half + 1);
      }
      if c != ' ' {
        var origin := ParseDigit(c);
        var destin := ParseDigit(route[i + 2]);
        assert origin == nodes[half] && destin == nodes[half + 1];
        total := total + sail[origin][destin];
      }
      if i == 2 * half + 1 {
        half := half + 1;
      }
      i := i + 1;
    }
  }

  /** Node m of a route text: a space, then its digit. */
  lemma RouteChar(nodes: seq<nat>, m: nat)
    requires (forall k | 0 <= k < |nodes| :: nodes[k] <= 9) && m < |nodes|
    ensures var route := RouteString(nodes);
            && route[2 * m] == ' '
            && '0' <= route[2 * m + 1] <= '9' && route[2 * m + 1] != ' '
            && ParseDigit(route[2 * m + 1]) == nodes[m]
  {
    DigitRoundTrip(nodes[m]);
  }

  /** The plain sailing time of a tour, which breaks ties between tours of
      the same leave time (less sailing, less fuel). */
  function Sailing(sail: seq<seq<int>>, tour: Tour): int
    requires SquareMatrix(sail) && NodesIn(tour.route, |sail| - 1)
  {
    PathSailing(sail, tour.route)
  }

  /** Every tour can be written as route text and costed on `sail`. */
  predicate Routable(tours: seq<Tour>, sail: seq<seq<int>>)
    requires SquareMatrix(sail)
  {
    forall k | 0 <= k < |tours| :: NodesIn(tours[k].route, |sail| - 1) && NodesIn(tours[k].route, 9)
  }

  /** Collections.min. */
  method Min(xs: seq<int>) returns (m: int)
    requires |xs| >= 1
    ensures m in xs
    ensures forall k | 0 <= k < |xs| :: m <= xs[k]
  {
    m := xs[0];
    for i := 1 to |xs|
      invariant m in xs[..i]
      invariant forall k | 0 <= k < i :: m <= xs[k]
    {
      if xs[i] < m {
        m := xs[i];
      }
    }
  }

  function Costs(tours: seq<Tour>): (costs: seq<int>)
    ensures |costs| == |tours|
    ensures forall k | 0 <= k < |tours| :: costs[k] == tours[k].cost
  {
    seq(|tours|, k requires 0 <= k < |tours| => tours[k].cost)
  }

  /** The positions, in increasing order, of every cost equal to `minCost`. */
  method Ties(costs: seq<int>, minCost: int) returns (indexes: seq<nat>)
    ensures forall m | 0 <= m < |indexes| :: indexes[m] < |costs| && costs[indexes[m]] == minCost
    ensures forall m, m' | 0 <= m < m' < |indexes| :: indexes[m] < indexes[m']
    ensures forall j | 0 <= j < |costs| && costs[j] == minCost :: j in indexes
  {
    indexes := [];
    for i := 0 to |costs|
      invariant forall m | 0 <= m < |indexes| :: indexes[m] < i && costs[indexes[m]] == minCost
      invariant forall m, m' | 0 <= m < m' < |indexes| :: indexes[m] < indexes[m']
      invariant forall j | 0 <= j < i && costs[j] == minCost :: j in indexes
    {
      if costs[i] == minCost {
        indexes := indexes + [i];
      }
    }
  }

  /** The sailing time of each tour at the given positions, through
      computeSailingtime on its route text. */
  method SailingTimes(tours: seq<Tour>, sail: seq<seq<int>>, indexes: seq<nat>) returns (sTimes: seq<int>)
    requires SquareMatrix(sail) && Routable(tours, sail)
    requires forall m | 0 <= m < |indexes| :: indexes[m] < |tours|
    ensures |sTimes| == |indexes|
    ensures forall q | 0 <= q < |indexes| :: sTimes[q] == Sailing(sail, tours[indexes[q]])
  {
    sTimes := [];
    for m := 0 to |indexes|
      invariant |sTimes| == m
      invariant forall q | 0 <= q < m :: sTimes[q] == Sailing(sail, tours[indexes[q]])
    {
      var tour := tours[indexes[m]];
      var sailingTime := ComputeSailingtime(sail, RouteString(tour.route), tour.route);
      sTimes := sTimes + [sailingTime];
    }
  }

  /** minimizeSailingtime: the index of the tour with the least leave time;
      among several such tours, the one with the least sailing time; among
      those, the first. */
  method MinimizeSailingtime(tours: seq<Tour>, sail: seq<seq<int>>) returns (best: nat)
    requires |tours| >= 1 && SquareMatrix(sail) && Routable(tours, sail)
    ensures best < |tours|
    ensures forall k | 0 <= k < |tours| :: tours[best].cost <= tours[k].cost
    ensures forall k | 0 <= k < |tours| && tours[k].cost == tours[best].cost ::
              Sailing(sail, tours[best]) <= Sailing(sail, tours[k])
    ensures forall k | 0 <= k < best && tours[k].cost == tours[best].cost ::
              Sailing(sail, tours[best]) < Sailing(sail, tours[k])
  {
    var costs := Costs(tours);
    var minCost := Min(costs);
    var indexBestTour := IndexOf(costs, minCost);
    var indexes := Ties(costs, minCost);
    if |indexes| > 1 {
      var sTimes := SailingTimes(tours, sail, indexes);
      var minSailingTime := Min(sTimes);
      var indexSTimes := IndexOf(sTimes, minSailingTime);
      indexBestTour := indexes[indexSTimes];
      forall k | 0 <= k < |tours| && tours[k].cost == minCost
        ensures Sailing(sail, tours[indexBestTour]) <= Sailing(sail, tours[k])
        ensures k < indexBestTour ==> Sailing(sail, tours[indexBestTour]) < Sailing(sail, tours[k])
      {
        assert k in indexes;
        var q :| 0 <= q < |indexes| && indexes[q] == k;
        assert sTimes[q] >= minSailingTime;
        if k < indexBestTour {
          assert q < indexSTimes;
        }
      }
    } else {
      assert indexBestTour in indexes;
      forall k | 0 <= k < |tours| && tours[k].cost == minCost
        ensures k == indexBestTour
      {
        assert k in indexes;
      }
    }
    best := indexBestTour;
  }

  // ---------------------------------------------------------------------------
  // The solver object

  /** What a solved TDTSP holds: the best route as text and as nodes, its
      leave and sojourn times, the (cleared) stage and the accepted tours. */
  datatype Solution = Solution(bestRoute: seq<char>, bestNodes: seq<nat>, bestLeaveTime: int,
                               bestSojournTime: int, stage: Stage, accepted: seq<Tour>)

  /** The stage's three lists stay parallel through the whole search. */
  lemma {:induction false} SolveKeepsBalanced(inst: Instance, ps: PartialSolution, time: int, pred: seq<nat>,
                                              st: Stage, acc: seq<Tour>)
    requires Valid(inst) && WellFormedSolution(ps, NumNodes(inst)) && Balanced(st)
    ensures Balanced(Solve(inst, ps, time, pred, st, acc).stage)
    decreases NumNodes(inst) - NumVisited(ps.current, NumNodes(inst)), 1, 0
  {
    var n := NumNodes(inst);
    if Examine(ps.current, n) != Accept {
      var t := time + TimeDependentTravelTime(inst, ps, time);
      var route := pred + [LastNode(ps.current, n)];
      SolveContinues(inst, ps, time, pred, st, acc, t, route);
      SolveChildrenKeepBalanced(inst, Children(ps.current, n), NumVisited(ps.current, n), t, route,
                                Record(st, t, ps.current, route), acc);
    }
  }

  lemma {:induction false} SolveChildrenKeepBalanced(inst: Instance, cs: seq<PartialSolution>, v: nat, time: int,
                                                     pred: seq<nat>, st: Stage, acc: seq<Tour>)
    requires Valid(inst) && v < NumNodes(inst) && Balanced(st)
    requires forall k | 0 <= k < |cs| ::
               WellFormedSolution(cs[k], NumNodes(inst)) && NumVisited(cs[k].current, NumNodes(inst)) == v + 1
    ensures Balanced(SolveChildren(inst, cs, v, time, pred, st, acc).stage)
    decreases NumNodes(inst) - v, 0, |cs|
  {
    if |cs| > 0 {
      var r := Solve(inst, cs[0], time, pred, st, acc);
      SolveKeepsBalanced(inst, cs[0], time, pred, st, acc);
      SolveChildrenKeepBalanced(inst, cs[1..], v, time, pred, r.stage, r.tours);
    }
  }

  lemma TourNodes(route: seq<nat>, n: nat)
    requires IsTour(route, n)
    ensures NodesIn(route, n)
  {
    forall k | 0 <= k < |route| ensures route[k] <= n {
      if 1 <= k <= n {
        assert route[k] == route[1..n + 1][k - 1];
      }
    }
  }

  lemma FactPositive(m: nat)
    ensures Fact(m) >= 1
  {
  }

  /** The search the constructor starts: from the initial string, at the
      depot, with an empty stage and no accepted tours. */
  function InitialSearch(inst: Instance, start: int): Search
    requires Valid(inst)
  {
    var n := NumNodes(inst);
    EncInitial(n);
    EncFacts([], n);
    Solve(inst, PartialSolution(Initial(n), Initial(n)), start, [], Empty(), [])
  }

  /** The accepted tours are n! tours, each costed at its leave time, and
      every visiting order is among them. */
  lemma AcceptedTours(inst: Instance, start: int)
    requires Valid(inst) && NumNodes(inst) <= 9
    ensures var tours := InitialSearch(inst, start).tours;
            && |tours| == Fact(NumNodes(inst)) >= 1
            && (forall k | 0 <= k < |tours| :: GoodTour(inst, start, tours[k]))
            && Routable(tours, inst.sail)
            && (forall perm {:trigger ValidOrder(perm, NumNodes(inst))} | ValidOrder(perm, NumNodes(inst)) && |perm| == NumNodes(inst) ::
                  Lists(tours, 0, [0] + perm + [0]))
  {
    var n := NumNodes(inst);
    EncInitial(n);
    EncFacts([], n);
    SolveIsExplore(inst, [], Initial(n), start, [], Empty(), []);
    var tours := InitialSearch(inst, start).tours;
    assert tours == Explore(inst, 0, [], start, [], []);
    ExploreSound(inst, start, 0, [], start, [], []);
    ExploreCount(inst, 0, [], start, [], []);
    FactPositive(n);
    forall k | 0 <= k < |tours| ensures NodesIn(tours[k].route, |inst.sail| - 1) && NodesIn(tours[k].route, 9) {
      TourNodes(tours[k].route, n);
    }
    forall perm {:trigger ValidOrder(perm, n)} | ValidOrder(perm, n) && |perm| == n ensures Lists(tours, 0, [0] + perm + [0]) {
      ExploreComplete(inst, 0, [], start, [], [], perm);
    }
  }

  /** A tour chosen as MinimizeSailingtime chooses, from a list holding every
      visiting order, beats every visiting order. */
  lemma BestBeatsEveryOrder(inst: Instance, start: int, tours: seq<Tour>, best: nat)
    requires Valid(inst) && best < |tours| && Routable(tours, inst.sail)
    requires forall k | 0 <= k < |tours| :: GoodTour(inst, start, tours[k])
    requires forall perm {:trigger ValidOrder(perm, NumNodes(inst))} | ValidOrder(perm, NumNodes(inst)) && |perm| == NumNodes(inst) ::
               Lists(tours, 0, [0] + perm + [0])
    requires forall k | 0 <= k < |tours| :: tours[best].cost <= tours[k].cost
    requires forall k | 0 <= k < |tours| && tours[k].cost == tours[best].cost ::
               Sailing(inst.sail, tours[best]) <= Sailing(inst.sail, tours[k])
    ensures forall perm {:trigger ValidOrder(perm, NumNodes(inst))} | ValidOrder(perm, NumNodes(inst)) && |perm| == NumNodes(inst) ::
              && NodesIn([0] + perm + [0], NumNodes(inst))
              && tours[best].cost <= RouteLeaveTime(inst, start, [0] + perm + [0])
              && (RouteLeaveTime(inst, start, [0] + perm + [0]) == tours[best].cost ==>
                    Sailing(inst.sail, tours[best]) <= PathSailing(inst.sail, [0] + perm + [0]))
  {
    var n := NumNodes(inst);
    forall perm {:trigger ValidOrder(perm, n)} | ValidOrder(perm, n) && |perm| == n
      ensures NodesIn([0] + perm + [0], n)
      ensures tours[best].cost <= RouteLeaveTime(inst, start, [0] + perm + [0])
      ensures RouteLeaveTime(inst, start, [0] + perm + [0]) == tours[best].cost ==>
                Sailing(inst.sail, tours[best]) <= PathSailing(inst.sail, [0] + perm + [0])
    {
      var k :| 0 <= k < |tours| && tours[k].route == [0] + perm + [0];
      assert GoodTour(inst, start, tours[k]);
      TourNodes(tours[k].route, n);
    }
  }

  /** The constructor: solve from the initial string at the start time, keep
      the best accepted tour, clear the stage. The best tour is a tour of
      every node, its leave time is that of its route, no visiting order
      leaves earlier, and none that leaves as early sails less. */
  method NewTdtsp(inst: Instance, startTime: int) returns (r: Solution)
    requires Valid(inst) && NumNodes(inst) <= 9
    ensures IsTour(r.bestNodes, NumNodes(inst)) && NodesIn(r.bestNodes, NumNodes(inst))
    ensures NodesIn(r.bestNodes, 9) && r.bestRoute == RouteString(r.bestNodes)
    ensures r.bestLeaveTime == RouteLeaveTime(inst, startTime, r.bestNodes)
    ensures forall perm {:trigger ValidOrder(perm, NumNodes(inst))} | ValidOrder(perm, NumNodes(inst)) && |perm| == NumNodes(inst) ::
              r.bestLeaveTime <= RouteLeaveTime(inst, startTime, [0] + perm + [0])
    ensures forall perm {:trigger ValidOrder(perm, NumNodes(inst))} | ValidOrder(perm, NumNodes(inst)) && |perm| == NumNodes(inst) &&
                          RouteLeaveTime(inst, startTime, [0] + perm + [0]) == r.bestLeaveTime ::
              PathSailing(inst.sail, r.bestNodes) <= PathSailing(inst.sail, [0] + perm + [0])
    ensures r.bestSojournTime == r.bestLeaveTime - startTime
    ensures r.stage == Empty()
    ensures r.accepted == InitialSearch(inst, startTime).tours && |r.accepted| == Fact(NumNodes(inst))
    ensures forall k | 0 <= k < |r.accepted| :: GoodTour(inst, startTime, r.accepted[k])
  {
    var search := InitialSearch(inst, startTime);
    var tours := search.tours;
    AcceptedTours(inst, startTime);
    var best := MinimizeSailingtime(tours, inst.sail);
    BestBeatsEveryOrder(inst, startTime, tours, best);
    var tour := tours[best];
    TourNodes(tour.route, NumNodes(inst));
    r := Solution(RouteString(tour.route), tour.route, tour.cost, tour.cost - startTime, Clear(search.stage), tours);
  }
}
