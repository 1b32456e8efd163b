/** The search log of the solver (src/tdtsp/Stage.java): three parallel
    lists recording, for every partial solution the search visits, the
    arrival time at its last node, its bit string and the route that led
    to it. The route is kept as a list of nodes rather than the Java's
    space-separated text. */
module Stages {
  datatype Stage = Stage(cost: seq<int>, sets: seq<seq<char>>, pred: seq<seq<nat>>)

  /** The three lists describe the same partial solutions. */
  predicate Balanced(st: Stage) {
    |st.cost| == |st.sets| == |st.pred|
  }

  function Empty(): (st: Stage)
    ensures Balanced(st) && |st.cost| == 0
  {
    Stage([], [], [])
  }

  /** The copy constructor: three fresh lists filled element by element
      from the given stage's lists, which gives a stage equal to it. */
  method Copy(st: Stage) returns (r: Stage)
    ensures r == st
  {
    r := Empty();
    var i := 0;
    while i < |st.cost|
      invariant 0 <= i <= |st.cost| && r == Stage(st.cost[..i], [], [])
    {
      r := AddCost(r, st.cost[i]);
      i := i + 1;
    }
    i := 0;
    while i < |st.sets|
      invariant 0 <= i <= |st.sets| && r == Stage(st.cost, st.sets[..i], [])
    {
      r := AddSet(r, st.sets[i]);
      i := i + 1;
    }
    i := 0;
    while i < |st.pred|
      invariant 0 <= i <= |st.pred| && r == Stage(st.cost, st.sets, st.pred[..i])
    {
      r := AddPred(r, st.pred[i]);
      i := i + 1;
    }
  }

  function AddCost(st: Stage, c: int): Stage {
    st.(cost := st.cost + [c])
  }

  function AddSet(st: Stage, s: seq<char>): Stage {
    st.(sets := st.sets + [s])
  }

  function AddPred(st: Stage, p: seq<nat>): Stage {
    st.(pred := st.pred + [p])
  }

  /** What the solver does for each partial solution: the three adds in a
      row, which keep the lists parallel and leave earlier records alone. */
  function Record(st: Stage, c: int, s: seq<char>, p: seq<nat>): (r: Stage)
    ensures Balanced(st) ==> Balanced(r)
    ensures r.cost == st.cost + [c] && r.sets == st.sets + [s] && r.pred == st.pred + [p]
  {
    AddPred(AddSet(AddCost(st, c), s), p)
  }

  /** Clearing the three lists at the end of a solve. */
  function Clear(st: Stage): (r: Stage)
    ensures Balanced(r) && |r.cost| == 0
  {
    Empty()
  }
}
