/** Partial solutions of the time-dependent TSP (src/tdtsp/PartialSolution.java).
    A partial solution is a bit string of n + 5 characters: the first n flag
    the visited nodes (character i stands for node n - i) and the last five
    hold, in binary, the node visited last. The depot, node 0, has no flag. */
module PartialSolutions {
  import opened WaitingProfiles

  type BitString = seq<char>

  /** The five-character field can name nodes 0..31. */
  const MaxNode: nat := 31

  predicate IsBits(s: seq<char>) {
    forall k | 0 <= k < |s| :: s[k] == '0' || s[k] == '1'
  }

  function Bit(b: nat): char
    requires b < 2
  {
    if b == 0 then '0' else '1'
  }

  function Zeros(m: nat): (z: seq<char>)
    ensures |z| == m && IsBits(z)
    ensures forall k | 0 <= k < m :: z[k] == '0'
  {
    seq(m, _ => '0')
  }

  function Pow2(k: nat): (p: nat)
    ensures p >= 1
  {
    if k == 0 then 1 else 2 * Pow2(k - 1)
  }

  // ---------------------------------------------------------------------------
  // The five-bit node field

  /** Integer.toBinaryString on a non-negative value: binary digits without
      leading zeros, "0" for zero. */
  function ToBinary(v: nat): (s: seq<char>)
    ensures IsBits(s) && |s| >= 1
    ensures |s| > 1 ==> s[0] == '1'
    decreases v
  {
    if v < 2 then [Bit(v)] else ToBinary(v / 2) + [Bit(v % 2)]
  }

  /** Integer.parseInt(s, 2) on a string of binary digits. */
  function ParseBinary(s: seq<char>): nat
    requires IsBits(s)
  {
    if |s| == 0 then 0 else 2 * ParseBinary(s[..|s| - 1]) + (if s[|s| - 1] == '1' then 1 else 0)
  }

  /** The zero padding of extend: up to five characters. */
  function Pad5(s: seq<char>): (r: seq<char>)
    ensures |s| <= 5 ==> |r| == 5
  {
    if |s| < 5 then Zeros(5 - |s|) + s else s
  }

  /** The five-character field naming node `v`. */
  function Encode5(v: nat): seq<char> {
    Pad5(ToBinary(v))
  }

  /** getLastNodeVisited: the node named by the five characters after the
      n flags. */
  function LastNode(s: BitString, n: nat): nat
    requires |s| >= n + 5 && IsBits(s[n..n + 5])
  {
    ParseBinary(s[n..n + 5])
  }

  lemma {:induction false} ParseToBinary(v: nat)
    ensures ParseBinary(ToBinary(v)) == v
    decreases v
  {
    if v >= 2 {
      var s := ToBinary(v / 2) + [Bit(v % 2)];
      assert s[..|s| - 1] == ToBinary(v / 2);
      ParseToBinary(v / 2);
    }
  }

  lemma {:induction false} ToBinaryLength(v: nat, k: nat)
    requires 1 <= k && v < Pow2(k)
    ensures |ToBinary(v)| <= k
    decreases v
  {
    if v >= 2 {
      assert Pow2(1) == 2;
      ToBinaryLength(v / 2, k - 1);
    }
  }

  lemma {:induction false} ParseZeros(m: nat)
    ensures ParseBinary(Zeros(m)) == 0
  {
    if m > 0 {
      assert Zeros(m)[..m - 1] == Zeros(m - 1);
      ParseZeros(m - 1);
    }
  }

  /** Leading zeros do not change the value. */
  lemma {:induction false} ParseLeadingZeros(m: nat, s: seq<char>)
    requires IsBits(s)
    ensures IsBits(Zeros(m) + s) && ParseBinary(Zeros(m) + s) == ParseBinary(s)
    decreases |s|
  {
    var t := Zeros(m) + s;
    assert IsBits(t) by {
      forall k | 0 <= k < |t| ensures t[k] == '0' || t[k] == '1' {
        if k >= m { assert t[k] == s[k - m]; }
      }
    }
    if |s| == 0 {
      assert t == Zeros(m);
      ParseZeros(m);
    } else {
      assert t[..|t| - 1] == Zeros(m) + s[..|s| - 1];
      ParseLeadingZeros(m, s[..|s| - 1]);
    }
  }

  lemma {:induction false} ParseBound(s: seq<char>)
    requires IsBits(s)
    ensures ParseBinary(s) < Pow2(|s|)
  {
    if |s| > 0 {
      ParseBound(s[..|s| - 1]);
    }
  }

  /** Two binary strings of the same length with the same value are equal. */
  lemma {:induction false} ParseInjective(a: seq<char>, b: seq<char>)
    requires IsBits(a) && IsBits(b) && |a| == |b|
    requires ParseBinary(a) == ParseBinary(b)
    ensures a == b
  {
    if |a| > 0 {
      var n := |a| - 1;
      assert a[n] == b[n];
      ParseInjective(a[..n], b[..n]);
      assert a == a[..n] + [a[n]] && b == b[..n] + [b[n]];
    }
  }

  /** Every node 0..31 is written in exactly five characters and read back. */
  lemma Encode5RoundTrip(v: nat)
    requires v <= MaxNode
    ensures |Encode5(v)| == 5 && IsBits(Encode5(v))
    ensures ParseBinary(Encode5(v)) == v
  {
    assert Pow2(5) == 32;
    ToBinaryLength(v, 5);
    ParseToBinary(v);
    var b := ToBinary(v);
    if |b| < 5 {
      ParseLeadingZeros(5 - |b|, b);
    }
  }

  /** Conversely, every five-character field is the encoding of the node it
      names. */
  lemma Decode5RoundTrip(s: seq<char>)
    requires |s| == 5 && IsBits(s)
    ensures ParseBinary(s) <= MaxNode && Encode5(ParseBinary(s)) == s
  {
    ParseBound(s);
    assert Pow2(5) == 32;
    Encode5RoundTrip(ParseBinary(s));
    ParseInjective(Encode5(ParseBinary(s)), s);
  }

  // ---------------------------------------------------------------------------
  // Bit strings and partial solutions

  /** Well-formed for n nodes: n flags and a five-character field naming a
      node of the graph. */
  predicate WellFormed(s: BitString, n: nat) {
    |s| == n + 5 && IsBits(s) && IsBits(s[n..n + 5]) && LastNode(s, n) <= n
  }

  /** The initial string: nothing visited, last node the depot. */
  function Initial(n: nat): BitString {
    Zeros(5) + Zeros(n)
  }

  function CountOnes(s: seq<char>): (c: nat)
    ensures c <= |s|
  {
    if |s| == 0 then 0 else CountOnes(s[..|s| - 1]) + (if s[|s| - 1] == '1' then 1 else 0)
  }

  /** getNumVisited: the number of set flags. */
  function NumVisited(s: BitString, n: nat): (c: nat)
    requires |s| >= n
    ensures c <= n
  {
    CountOnes(s[..n])
  }

  datatype PartialSolution = PartialSolution(current: BitString, previous: BitString)

  predicate WellFormedSolution(ps: PartialSolution, n: nat) {
    WellFormed(ps.current, n) && WellFormed(ps.previous, n)
  }

  /** The string of the child that visits node j next: flag n - j set and
      the field naming j. */
  function Child(s: BitString, n: nat, j: nat): BitString
    requires 1 <= j <= n <= |s|
  {
    s[..n - j] + "1" + s[n - j + 1..n] + Encode5(j)
  }

  /** extend: the loop runs over flag positions n - 1 down to 0, that is
      over nodes 1 up to n, and makes a child for every unset flag. */
  function ChildrenFrom(s: BitString, n: nat, j: nat): (cs: seq<PartialSolution>)
    requires 1 <= j <= n + 1 && n <= |s|
    ensures forall k | 0 <= k < |cs| :: cs[k].previous == s
    decreases n + 1 - j
  {
    if j > n then []
    else (if s[n - j] == '0' then [PartialSolution(Child(s, n, j), s)] else []) + ChildrenFrom(s, n, j + 1)
  }

  function Children(s: BitString, n: nat): (cs: seq<PartialSolution>)
    requires n <= |s|
    ensures forall k | 0 <= k < |cs| :: cs[k].previous == s
    ensures WellFormed(s, n) && n <= MaxNode ==>
              forall k | 0 <= k < |cs| ::
                WellFormed(cs[k].current, n) && NumVisited(cs[k].current, n) == NumVisited(s, n) + 1
  {
    if WellFormed(s, n) && n <= MaxNode then
      ChildrenFacts(s, n, 1);
      ChildrenFrom(s, n, 1)
    else ChildrenFrom(s, n, 1)
  }

  /** examine's verdicts. ABANDON is declared by the Java but never returned. */
  datatype Verdict = Accept | Abandon | Continue

  /** A partial solution is complete when every node is visited. */
  function Examine(s: BitString, n: nat): (v: Verdict)
    requires |s| >= n
    ensures v != Abandon
    ensures v == Accept <==> NumVisited(s, n) == n
  {
    if NumVisited(s, n) == n then Accept else Continue
  }

  lemma {:induction false} CountOnesAppend(a: seq<char>, b: seq<char>)
    ensures CountOnes(a + b) == CountOnes(a) + CountOnes(b)
    decreases |b|
  {
    if |b| == 0 {
      assert a + b == a;
    } else {
      assert (a + b)[..|a + b| - 1] == a + b[..|b| - 1];
      CountOnesAppend(a, b[..|b| - 1]);
    }
  }

  lemma {:induction false} CountZeros(m: nat)
    ensures CountOnes(Zeros(m)) == 0
  {
    if m > 0 {
      assert Zeros(m)[..m - 1] == Zeros(m - 1);
      CountZeros(m - 1);
    }
  }

  /** Setting one unset flag adds one to the count. */
  lemma SetFlagCount(s: seq<char>, i: nat)
    requires i < |s| && s[i] == '0'
    ensures CountOnes(s[..i] + "1" + s[i + 1..]) == CountOnes(s) + 1
  {
    assert s == s[..i] + [s[i]] + s[i + 1..];
    CountOnesAppend(s[..i] + "1", s[i + 1..]);
    CountOnesAppend(s[..i], "1");
    CountOnesAppend(s[..i] + [s[i]], s[i + 1..]);
    CountOnesAppend(s[..i], [s[i]]);
    assert CountOnes("1") == 1 by { assert "1"[..0] == []; }
    assert CountOnes([s[i]]) == 0 by { assert [s[i]][..0] == []; }
  }

  /** A child is a well-formed string with one more node visited, and its
      field names the node it added. */
  lemma ChildFacts(s: BitString, n: nat, j: nat)
    requires WellFormed(s, n) && n <= MaxNode && 1 <= j <= n && s[n - j] == '0'
    ensures var c := Child(s, n, j);
            && WellFormed(c, n)
            && LastNode(c, n) == j
            && NumVisited(c, n) == NumVisited(s, n) + 1
  {
    var c := Child(s, n, j);
    Encode5RoundTrip(j);
    var flags := s[..n - j] + "1" + s[n - j + 1..n];
    assert c == flags + Encode5(j);
    assert c[n..n + 5] == Encode5(j);
    assert c[..n] == flags;
    assert IsBits(c) by {
      forall k | 0 <= k < |c| ensures c[k] == '0' || c[k] == '1' {
        if k < n - j { assert c[k] == s[k]; }
        else if n - j < k < n { assert c[k] == s[k]; }
        else if k >= n { assert c[k] == Encode5(j)[k - n]; }
      }
    }
    assert s[..n][..n - j] + "1" + s[..n][n - j + 1..] == flags;
    SetFlagCount(s[..n], n - j);
  }

  /** The children of a well-formed string are well-formed, each has one
      more node visited, and each remembers its parent. */
  lemma ChildrenFacts(s: BitString, n: nat, j: nat)
    requires WellFormed(s, n) && n <= MaxNode && 1 <= j <= n + 1
    ensures forall k | 0 <= k < |ChildrenFrom(s, n, j)| ::
              WellFormed(ChildrenFrom(s, n, j)[k].current, n)
              && NumVisited(ChildrenFrom(s, n, j)[k].current, n) == NumVisited(s, n) + 1
    decreases n + 1 - j
  {
    if j <= n {
      ChildrenFacts(s, n, j + 1);
      if s[n - j] == '0' {
        ChildFacts(s, n, j);
      }
    }
  }

  // ---------------------------------------------------------------------------
  // The time-dependent travel time

  /** The part of the TDTSP object and its barge that the travel times read:
      the sailing-time matrix over the barge's nodes (node 0 the port
      entrance), the handling time, waiting profile and current book size at
      each node, and the slack configuration. */
  datatype Instance = Instance(sail: seq<seq<int>>, handling: seq<int>, profiles: seq<Profile>,
                               bookSizes: seq<nat>, slack: Slack)

  predicate Valid(inst: Instance) {
    && 1 <= |inst.sail| <= MaxNode + 1
    && (forall i | 0 <= i < |inst.sail| :: |inst.sail[i]| == |inst.sail|)
    && |inst.handling| == |inst.sail|
    && |inst.profiles| == |inst.sail|
    && |inst.bookSizes| == |inst.sail|
    && (inst.slack.Factor? ==> inst.slack.denominator != 0)
  }

  /** numNodes: the nodes besides the depot. */
  function NumNodes(inst: Instance): nat
    requires Valid(inst)
  {
    |inst.sail| - 1
  }

  /** The duration of the leg o -> d departing at `dep`: sailing, then the
      waiting time d's profile quotes for the arrival moment, then handling. */
  function Arc(inst: Instance, o: nat, d: nat, dep: int): (t: int)
    requires Valid(inst) && o < |inst.sail| && d < |inst.sail|
    ensures NonNegativeSlack(inst.slack) ==> t >= inst.sail[o][d] + inst.handling[d]
  {
    var sailing := inst.sail[o][d];
    MaxWaitingTimeNonNegative(inst.profiles[d], dep + sailing, inst.slack, inst.bookSizes[d]);
    sailing + MaxWaitingTime(inst.profiles[d], dep + sailing, inst.slack, inst.bookSizes[d]) + inst.handling[d]
  }

  /** timeDependentTravelTime: the leg from the previous string's last node
      to the current one's. */
  function TimeDependentTravelTime(inst: Instance, ps: PartialSolution, dep: int): int
    requires Valid(inst) && WellFormedSolution(ps, NumNodes(inst))
  {
    Arc(inst, LastNode(ps.previous, NumNodes(inst)), LastNode(ps.current, NumNodes(inst)), dep)
  }

  /** computeCost(origin, destination): the plain sailing time, used for the
      return to the depot. */
  function ComputeCost(inst: Instance, o: nat, d: nat): int
    requires Valid(inst) && o < |inst.sail| && d < |inst.sail|
  {
    inst.sail[o][d]
  }

  // ---------------------------------------------------------------------------
  // The strings as visiting orders

  /** A visiting order: distinct nodes of 1..n. */
  predicate ValidOrder(order: seq<nat>, n: nat) {
    && (forall k | 0 <= k < |order| :: 1 <= order[k] <= n)
    && (forall k, l | 0 <= k < l < |order| :: order[k] != order[l])
  }

  function LastOf(order: seq<nat>): nat {
    if |order| == 0 then 0 else order[|order| - 1]
  }

  function Flags(order: seq<nat>, n: nat): (f: seq<char>)
    ensures |f| == n && IsBits(f)
  {
    seq(n, i requires 0 <= i < n => if n - i in order then '1' else '0')
  }

  /** The string the search holds after visiting the nodes of `order`. */
  function Enc(order: seq<nat>, n: nat): BitString
    requires ValidOrder(order, n) && n <= MaxNode
  {
    Flags(order, n) + Encode5(LastOf(order))
  }

  /** The unvisited nodes from j to n, in ascending order. */
  function UnvisitedFrom(order: seq<nat>, n: nat, j: nat): (js: seq<nat>)
    requires 1 <= j <= n + 1
    ensures forall k | 0 <= k < |js| :: j <= js[k] <= n && js[k] !in order
    ensures forall k, l | 0 <= k < l < |js| :: js[k] < js[l]
    decreases n + 1 - j
  {
    if j > n then [] else (if j in order then [] else [j]) + UnvisitedFrom(order, n, j + 1)
  }

  /** Every unvisited node from j on is listed. */
  lemma {:induction false} UnvisitedComplete(order: seq<nat>, n: nat, j: nat, v: nat)
    requires 1 <= j <= v <= n && v !in order
    ensures v in UnvisitedFrom(order, n, j)
    decreases n + 1 - j
  {
    if j < v {
      UnvisitedComplete(order, n, j + 1, v);
    }
  }

  /** The children the search makes from the string of `order`, as strings. */
  function EncChildren(order: seq<nat>, n: nat, js: seq<nat>): (cs: seq<PartialSolution>)
    requires ValidOrder(order, n) && n <= MaxNode
    requires forall k | 0 <= k < |js| :: 1 <= js[k] <= n && js[k] !in order
    ensures |cs| == |js|
    ensures forall k | 0 <= k < |cs| ::
              WellFormedSolution(cs[k], n) && NumVisited(cs[k].current, n) == |order| + 1
  {
    EncChildrenFacts(order, n, js);
    seq(|js|, k requires 0 <= k < |js| => PartialSolution(Enc(order + [js[k]], n), Enc(order, n)))
  }

  lemma EncChildrenFacts(order: seq<nat>, n: nat, js: seq<nat>)
    requires ValidOrder(order, n) && n <= MaxNode
    requires forall k | 0 <= k < |js| :: 1 <= js[k] <= n && js[k] !in order
    ensures forall k | 0 <= k < |js| ::
              ValidOrder(order + [js[k]], n)
              && WellFormed(Enc(order + [js[k]], n), n) && NumVisited(Enc(order + [js[k]], n), n) == |order| + 1
    ensures WellFormed(Enc(order, n), n)
  {
    EncFacts(order, n);
    forall k | 0 <= k < |js|
      ensures ValidOrder(order + [js[k]], n)
      ensures WellFormed(Enc(order + [js[k]], n), n) && NumVisited(Enc(order + [js[k]], n), n) == |order| + 1
    {
      ExtendOrder(order, n, js[k]);
      EncFacts(order + [js[k]], n);
    }
  }

  lemma ExtendOrder(order: seq<nat>, n: nat, j: nat)
    requires ValidOrder(order, n) && 1 <= j <= n && j !in order
    ensures ValidOrder(order + [j], n)
  {
  }

  /** The flags of a visiting order have one set flag per visited node. */
  lemma {:induction false} FlagsCount(order: seq<nat>, n: nat)
    requires ValidOrder(order, n)
    ensures CountOnes(Flags(order, n)) == |order|
    decreases |order|
  {
    if |order| == 0 {
      assert Flags(order, n) == Zeros(n);
      CountZeros(n);
    } else {
      var init := order[..|order| - 1];
      var j := order[|order| - 1];
      assert order == init + [j];
      FlagsCount(init, n);
      FlagsSet(init, n, j);
      SetFlagCount(Flags(init, n), n - j);
    }
  }

  /** The encoding of a visiting order is well-formed, names the node
      visited last, and counts the visited nodes. */
  lemma EncFacts(order: seq<nat>, n: nat)
    requires ValidOrder(order, n) && n <= MaxNode
    ensures WellFormed(Enc(order, n), n)
    ensures LastNode(Enc(order, n), n) == LastOf(order)
    ensures NumVisited(Enc(order, n), n) == |order|
  {
    var e := Enc(order, n);
    Encode5RoundTrip(LastOf(order));
    assert e[n..n + 5] == Encode5(LastOf(order));
    assert e[..n] == Flags(order, n);
    FlagsCount(order, n);
  }

  /** Visiting j sets exactly j's flag. */
  lemma FlagsSet(order: seq<nat>, n: nat, j: nat)
    requires 1 <= j <= n && ValidOrder(order + [j], n)
    ensures Flags(order, n)[n - j] == '0'
    ensures Flags(order + [j], n) == Flags(order, n)[..n - j] + "1" + Flags(order, n)[n - j + 1..]
  {
    assert j !in order by {
      assert (order + [j])[|order|] == j;
      forall k | 0 <= k < |order| ensures order[k] != j {
        assert (order + [j])[k] == order[k];
      }
    }
    var a := Flags(order + [j], n);
    var b := Flags(order, n)[..n - j] + "1" + Flags(order, n)[n - j + 1..];
    forall i | 0 <= i < n ensures a[i] == b[i] {
      assert (n - i in order + [j]) <==> (n - i in order || n - i == j);
    }
  }

  lemma EncInitial(n: nat)
    requires n <= MaxNode
    ensures Enc([], n) == Initial(n)
  {
    assert Flags([], n) == Zeros(n);
    assert Encode5(0) == Zeros(5) by {
      assert ToBinary(0) == "0";
    }
  }

  /** The child for node j of the string of `order` is the string of
      `order + [j]`. */
  lemma ChildEnc(order: seq<nat>, n: nat, j: nat)
    requires ValidOrder(order, n) && n <= MaxNode && 1 <= j <= n && j !in order
    ensures Enc(order, n)[n - j] == '0'
    ensures Child(Enc(order, n), n, j) == Enc(order + [j], n)
  {
    ExtendOrder(order, n, j);
    FlagsSet(order, n, j);
    var e := Enc(order, n);
    assert e[..n - j] == Flags(order, n)[..n - j];
    assert e[n - j + 1..n] == Flags(order, n)[n - j + 1..];
    assert e[n - j] == Flags(order, n)[n - j];
  }

  lemma EncChildrenCons(order: seq<nat>, n: nat, j: nat, rest: seq<nat>)
    requires ValidOrder(order, n) && n <= MaxNode && 1 <= j <= n && j !in order
    requires forall k | 0 <= k < |rest| :: 1 <= rest[k] <= n && rest[k] !in order
    ensures EncChildren(order, n, [j] + rest)
         == [PartialSolution(Enc(order + [j], n), Enc(order, n))] + EncChildren(order, n, rest)
  {
  }

  /** extend on the string of `order` makes the strings of `order + [j]`
      for the unvisited nodes j, in ascending order. */
  lemma {:induction false} ChildrenEnc(order: seq<nat>, n: nat, j: nat)
    requires ValidOrder(order, n) && n <= MaxNode && 1 <= j <= n + 1
    ensures ChildrenFrom(Enc(order, n), n, j) == EncChildren(order, n, UnvisitedFrom(order, n, j))
    decreases n + 1 - j
  {
    if j <= n {
      ChildrenEnc(order, n, j + 1);
      var rest := UnvisitedFrom(order, n, j + 1);
      var e := Enc(order, n);
      assert e[n - j] == Flags(order, n)[n - j];
      if j !in order {
        ChildEnc(order, n, j);
        EncChildrenCons(order, n, j, rest);
      }
    }
  }
}
