/**
 * The flexible-order variant generator of the quiz controller and the
 * word-ordering answer check built on it.
 *
 * A sort question has a `correctOrder` (a sequence of original word indices)
 * and a list of "flexible" groups of original word indices. Each group is
 * located in `correctOrder` (first occurrence of each index); every order
 * collected so far is then copied once per pair i < j of located positions,
 * with the two positions swapped. The copies are appended after all orders
 * of the round have been processed.
 */
module FlexibleOrder {

  // ---------------------------------------------------------------------------
  // Locating a group in the correct order
  // ---------------------------------------------------------------------------

  /** `s.findIndex(v => v === x)`: the first position of `x` in `s`, or -1. */
  function FindIndex(s: seq<int>, x: int): (r: int)
    ensures -1 <= r < |s|
    ensures r == -1 <==> x !in s
    ensures r >= 0 ==> s[r] == x && forall k :: 0 <= k < r ==> s[k] != x
  {
    if |s| == 0 then -1
    else if s[0] == x then 0
    else
      var r := FindIndex(s[1..], x);
      if r == -1 then -1 else r + 1
  }

  /**
   * `group.map(i => findIndex(i)).filter(pos => pos !== -1)`: the positions in
   * `correctOrder` of the group's indices, in group order, unknown indices dropped.
   */
  function Positions(correctOrder: seq<int>, group: seq<int>): (ps: seq<nat>)
    ensures |ps| <= |group|
    ensures InBounds(ps, |correctOrder|)
  {
    if |group| == 0 then []
    else
      var p := FindIndex(correctOrder, group[0]);
      (if p == -1 then [] else [p as nat]) + Positions(correctOrder, group[1..])
  }

  /** Every located position holds a member of the group. */
  lemma {:induction false} PositionsMembers(correctOrder: seq<int>, group: seq<int>)
    ensures forall p :: p in Positions(correctOrder, group) ==> p < |correctOrder| && correctOrder[p] in group
  {
    if |group| > 0 {
      PositionsMembers(correctOrder, group[1..]);
      forall p | p in Positions(correctOrder, group)
        ensures p < |correctOrder| && correctOrder[p] in group
      {
        if p !in Positions(correctOrder, group[1..]) {
          assert p == FindIndex(correctOrder, group[0]);
        }
      }
    }
  }

  /** Every member of the group that occurs in the correct order is located, at its first occurrence. */
  lemma {:induction false} PositionsComplete(correctOrder: seq<int>, group: seq<int>, x: int)
    requires x in group && x in correctOrder
    ensures FindIndex(correctOrder, x) in Positions(correctOrder, group)
  {
    if group[0] != x {
      PositionsComplete(correctOrder, group[1..], x);
    }
  }

  /** Every position is a valid index into a sequence of length `n`. */
  predicate InBounds(ps: seq<nat>, n: nat)
  {
    forall k :: 0 <= k < |ps| ==> ps[k] < n
  }

  /** Every order has length `n`. */
  predicate AllLength(orders: seq<seq<int>>, n: nat)
  {
    forall o :: o in orders ==> |o| == n
  }

  /** A copy of `order` with the elements at `p` and `q` exchanged. */
  function Swap(order: seq<int>, p: nat, q: nat): (r: seq<int>)
    requires p < |order| && q < |order|
    ensures |r| == |order|
  {
    order[p := order[q]][q := order[p]]
  }

  /** The entries at `p` and `q` are exchanged; every other entry stays. */
  lemma SwapAt(order: seq<int>, p: nat, q: nat, k: nat)
    requires p < |order| && q < |order| && k < |order|
    ensures Swap(order, p, q)[k] == if k == q then order[p] else if k == p then order[q] else order[k]
  {
  }

  lemma SwapPermutes(order: seq<int>, p: nat, q: nat)
    requires p < |order| && q < |order|
    ensures multiset(Swap(order, p, q)) == multiset(order)
  {
    var mid := order[p := order[q]];
    assert multiset(mid) == multiset(order) - multiset{order[p]} + multiset{order[q]};
    assert mid[q] == order[q];
  }

  lemma SwapSymmetric(order: seq<int>, p: nat, q: nat)
    requires p < |order| && q < |order|
    ensures Swap(order, p, q) == Swap(order, q, p)
  {
  }

  // ---------------------------------------------------------------------------
  // The generated orders, as the nested loops produce them
  // ---------------------------------------------------------------------------

  /** The number of pairs i < j among `k` positions. */
  function Pairs(k: nat): nat
  {
    if k == 0 then 0 else Pairs(k - 1) + (k - 1)
  }

  lemma {:induction false} PairsClosedForm(k: nat)
    ensures 2 * Pairs(k) == k * (k - 1)
    ensures Pairs(k) == k * (k - 1) / 2
  {
    if k > 0 {
      PairsClosedForm(k - 1);
      assert (k - 1) * (k - 2) + 2 * (k - 1) == k * (k - 1);
    }
  }

  /** The swapped copies of `order` for the pairs (i, j), i < j < jEnd (innermost loop). */
  function RowSwaps(order: seq<int>, ps: seq<nat>, i: nat, jEnd: nat): (r: seq<seq<int>>)
    requires InBounds(ps, |order|) && i < |ps| && jEnd <= |ps|
    ensures |r| == if jEnd <= i + 1 then 0 else jEnd - i - 1
    decreases jEnd
  {
    if jEnd <= i + 1 then [] else RowSwaps(order, ps, i, jEnd - 1) + [Swap(order, ps[i], ps[jEnd - 1])]
  }

  /** The t-th copy of a row swaps positions i and i + 1 + t. */
  lemma {:induction false} RowSwapsAt(order: seq<int>, ps: seq<nat>, i: nat, jEnd: nat, t: nat)
    requires InBounds(ps, |order|) && i < |ps| && jEnd <= |ps|
    requires t < |RowSwaps(order, ps, i, jEnd)|
    ensures RowSwaps(order, ps, i, jEnd)[t] == Swap(order, ps[i], ps[i + 1 + t])
    decreases jEnd
  {
    if t < jEnd - i - 2 {
      RowSwapsAt(order, ps, i, jEnd - 1, t);
    }
  }

  /** The swapped copies of `order` for every pair (i, j), i < iEnd, i < j (the two inner loops). */
  function PairSwaps(order: seq<int>, ps: seq<nat>, iEnd: nat): seq<seq<int>>
    requires InBounds(ps, |order|) && iEnd <= |ps|
  {
    if iEnd == 0 then []
    else PairSwaps(order, ps, iEnd - 1) + RowSwaps(order, ps, iEnd - 1, |ps|)
  }

  /** The rows for i < iEnd hold all pairs but those among the last |ps| - iEnd positions. */
  lemma {:induction false} PairSwapsCount(order: seq<int>, ps: seq<nat>, iEnd: nat)
    requires InBounds(ps, |order|) && iEnd <= |ps|
    ensures |PairSwaps(order, ps, iEnd)| + Pairs(|ps| - iEnd) == Pairs(|ps|)
  {
    if iEnd > 0 {
      var row := RowSwaps(order, ps, iEnd - 1, |ps|);
      assert PairSwaps(order, ps, iEnd) == PairSwaps(order, ps, iEnd - 1) + row;
      assert Pairs(|ps| - iEnd + 1) == Pairs(|ps| - iEnd) + |row|;
      PairSwapsCount(order, ps, iEnd - 1);
    }
  }

  /** `o` is `order` with two distinct-index located positions ps[i], ps[j] (i < j) exchanged. */
  predicate IsPairSwap(o: seq<int>, order: seq<int>, ps: seq<nat>)
    requires InBounds(ps, |order|)
  {
    exists i, j :: 0 <= i < j < |ps| && o == SwapOf(order, ps, i, j)
  }

  /** `order` with the located positions ps[i] and ps[j] exchanged. */
  function SwapOf(order: seq<int>, ps: seq<nat>, i: nat, j: nat): seq<int>
    requires InBounds(ps, |order|) && i < |ps| && j < |ps|
  {
    Swap(order, ps[i], ps[j])
  }

  /** The t-th copy made for one order is one of its pair swaps. */
  lemma {:induction false} PairSwapsAt(order: seq<int>, ps: seq<nat>, iEnd: nat, t: nat)
    requires InBounds(ps, |order|) && iEnd <= |ps| && t < |PairSwaps(order, ps, iEnd)|
    ensures IsPairSwap(PairSwaps(order, ps, iEnd)[t], order, ps)
  {
    var prev, row := PairSwaps(order, ps, iEnd - 1), RowSwaps(order, ps, iEnd - 1, |ps|);
    if t < |prev| {
      PairSwapsAt(order, ps, iEnd - 1, t);
      assert PairSwaps(order, ps, iEnd)[t] == prev[t];
    } else {
      RowSwapsAt(order, ps, iEnd - 1, |ps|, t - |prev|);
      assert PairSwaps(order, ps, iEnd)[t] == SwapOf(order, ps, iEnd - 1, iEnd + t - |prev|);
    }
  }

  /** Every copy made for one order is one of its pair swaps. */
  lemma PairSwapsSound(order: seq<int>, ps: seq<nat>, iEnd: nat)
    requires InBounds(ps, |order|) && iEnd <= |ps|
    ensures forall o :: o in PairSwaps(order, ps, iEnd) ==> IsPairSwap(o, order, ps) && |o| == |order|
  {
    var swaps := PairSwaps(order, ps, iEnd);
    forall o | o in swaps
      ensures IsPairSwap(o, order, ps) && |o| == |order|
    {
      var t :| 0 <= t < |swaps| && swaps[t] == o;
      PairSwapsAt(order, ps, iEnd, t);
      var i, j :| 0 <= i < j < |ps| && o == SwapOf(order, ps, i, j);
    }
  }

  /** Every pair swap (i, j) with i < iEnd is among the copies made for one order. */
  lemma {:induction false} PairSwapsComplete(order: seq<int>, ps: seq<nat>, iEnd: nat, i: nat, j: nat)
    requires InBounds(ps, |order|) && iEnd <= |ps|
    requires i < iEnd && i < j < |ps|
    ensures Swap(order, ps[i], ps[j]) in PairSwaps(order, ps, iEnd)
  {
    var row := RowSwaps(order, ps, iEnd - 1, |ps|);
    if i < iEnd - 1 {
      PairSwapsComplete(order, ps, iEnd - 1, i, j);
    } else {
      RowSwapsAt(order, ps, i, |ps|, j - i - 1);
      assert row[j - i - 1] in row;
    }
  }

  /** The swapped copies of `orders[..kEnd]`, order by order (the three inner loops). */
  function Variants(orders: seq<seq<int>>, ps: seq<nat>, n: nat, kEnd: nat): seq<seq<int>>
    requires AllLength(orders, n) && InBounds(ps, n) && kEnd <= |orders|
  {
    if kEnd == 0 then []
    else
      assert orders[kEnd - 1] in orders;
      Variants(orders, ps, n, kEnd - 1) + PairSwaps(orders[kEnd - 1], ps, |ps|)
  }

  /** The copies have the length of the orders they were made from. */
  lemma {:induction false} VariantsAllLength(orders: seq<seq<int>>, ps: seq<nat>, n: nat, kEnd: nat)
    requires AllLength(orders, n) && InBounds(ps, n) && kEnd <= |orders|
    ensures AllLength(Variants(orders, ps, n, kEnd), n)
  {
    if kEnd > 0 {
      VariantsAllLength(orders, ps, n, kEnd - 1);
      assert orders[kEnd - 1] in orders;
      PairSwapsSound(orders[kEnd - 1], ps, |ps|);
    }
  }

  /** Every order contributes one copy per pair of located positions. */
  lemma {:induction false} VariantsCount(orders: seq<seq<int>>, ps: seq<nat>, n: nat, kEnd: nat)
    requires AllLength(orders, n) && InBounds(ps, n) && kEnd <= |orders|
    ensures |Variants(orders, ps, n, kEnd)| == kEnd * Pairs(|ps|)
  {
    if kEnd > 0 {
      VariantsCount(orders, ps, n, kEnd - 1);
      PairSwapsCount(orders[kEnd - 1], ps, |ps|);
      assert (kEnd - 1) * Pairs(|ps|) + Pairs(|ps|) == kEnd * Pairs(|ps|);
    }
  }

  /**
   * One round of the outer loop: a group with fewer than two entries, or fewer
   * than two located positions, leaves the orders as they are; otherwise every
   * order's swapped copies are appended. The list grows by the factor
   * 1 + k(k-1)/2 for k located positions (1 when the group is skipped), and
   * the orders already there stay in front.
   */
  function AddGroup(correctOrder: seq<int>, orders: seq<seq<int>>, group: seq<int>): seq<seq<int>>
    requires AllLength(orders, |correctOrder|)
  {
    var ps := Positions(correctOrder, group);
    if |group| < 2 || |ps| < 2 then orders
    else orders + Variants(orders, ps, |correctOrder|, |orders|)
  }

  /** A round keeps the orders it started from in front, and every order keeps the common length. */
  lemma AddGroupExtends(correctOrder: seq<int>, orders: seq<seq<int>>, group: seq<int>)
    requires AllLength(orders, |correctOrder|)
    ensures orders <= AddGroup(correctOrder, orders, group)
    ensures AllLength(AddGroup(correctOrder, orders, group), |correctOrder|)
  {
    var ps := Positions(correctOrder, group);
    if |group| >= 2 && |ps| >= 2 {
      VariantsAllLength(orders, ps, |correctOrder|, |orders|);
    }
  }

  /** The factor by which a round with `k` located positions multiplies the number of orders. */
  function GrowthFactor(k: nat): nat
  {
    1 + Pairs(k)
  }

  /** A round multiplies the number of orders by GrowthFactor(k), k the located positions (k < 2 adds nothing). */
  lemma AddGroupCount(correctOrder: seq<int>, orders: seq<seq<int>>, group: seq<int>)
    requires AllLength(orders, |correctOrder|)
    ensures |AddGroup(correctOrder, orders, group)| == |orders| * GrowthFactor(|Positions(correctOrder, group)|)
  {
    var ps := Positions(correctOrder, group);
    var a, f := |orders|, GrowthFactor(|ps|);
    if |group| < 2 || |ps| < 2 {
      assert |ps| == 0 || |ps| == 1;
      assert f == 1;
      assert AddGroup(correctOrder, orders, group) == orders;
      MulOne(a, f);
    } else {
      var v := Variants(orders, ps, |correctOrder|, |orders|);
      assert AddGroup(correctOrder, orders, group) == orders + v;
      VariantsCount(orders, ps, |correctOrder|, |orders|);
      MulOnePlus(a, Pairs(|ps|), f);
    }
  }

  // The three lemmas below carry single arithmetic steps about products.
  // Each has a trivial proof, but stating them in the open lets the solver
  // take each step by itself, without rewriting every product in scope.

  lemma MulOne(a: nat, f: nat)
    requires f == 1
    ensures a * f == a
  {
  }

  lemma MulOnePlus(a: nat, b: nat, f: nat)
    requires f == 1 + b
    ensures a * f == a + a * b
  {
  }

  lemma MulCongruent(n: nat, a: nat, b: nat, f: nat, g: nat)
    requires n == a * f && a == b && f == g
    ensures n == b * g
  {
  }

  /** The result of generateFlexibleOrders: start from [correctOrder], one round per group. */
  function ValidOrders(correctOrder: seq<int>, groups: seq<seq<int>>): (r: seq<seq<int>>)
    ensures |r| >= 1 && r[0] == correctOrder
    ensures AllLength(r, |correctOrder|)
  {
    if |groups| == 0 then [correctOrder]
    else
      var orders := ValidOrders(correctOrder, groups[..|groups| - 1]);
      AddGroupExtends(correctOrder, orders, groups[|groups| - 1]);
      AddGroup(correctOrder, orders, groups[|groups| - 1])
  }

  /** The orders after g + 1 groups are one round applied to the orders after g groups. */
  lemma ValidOrdersStep(correctOrder: seq<int>, groups: seq<seq<int>>, g: nat)
    requires g < |groups|
    ensures ValidOrders(correctOrder, groups[..g + 1])
         == AddGroup(correctOrder, ValidOrders(correctOrder, groups[..g]), groups[g])
  {
    assert groups[..g + 1][..g] == groups[..g];
  }

  /** The imperative generator: nested loops over groups, orders and position pairs. */
  method GenerateFlexibleOrders(correctOrder: seq<int>, flexibleOrder: seq<seq<int>>)
    returns (validOrders: seq<seq<int>>)
    ensures validOrders == ValidOrders(correctOrder, flexibleOrder)
  {
    validOrders := [correctOrder];
    for g := 0 to |flexibleOrder|
      invariant validOrders == ValidOrders(correctOrder, flexibleOrder[..g])
    {
      ValidOrdersStep(correctOrder, flexibleOrder, g);
      var group := flexibleOrder[g];
      if |group| < 2 {
        continue;
      }
      var positions := Positions(correctOrder, group);
      if |positions| < 2 {
        continue;
      }
      var newOrders := ExpandOrders(validOrders, positions, |correctOrder|);
      validOrders := validOrders + newOrders;
    }
    assert flexibleOrder[..|flexibleOrder|] == flexibleOrder;
  }

  /** The swapped copies of every order collected so far (quiz.js:268-280). */
  method ExpandOrders(validOrders: seq<seq<int>>, positions: seq<nat>, ghost n: nat)
    returns (newOrders: seq<seq<int>>)
    requires AllLength(validOrders, n) && InBounds(positions, n)
    ensures newOrders == Variants(validOrders, positions, n, |validOrders|)
  {
    newOrders := [];
    for k := 0 to |validOrders|
      invariant newOrders == Variants(validOrders, positions, n, k)
    {
      var order := validOrders[k];
      assert order in validOrders;
      newOrders := PushPairSwaps(newOrders, order, positions);
    }
  }

  /** For one order, push a copy for every pair i < j of positions, the two positions swapped. */
  method PushPairSwaps(newOrders: seq<seq<int>>, order: seq<int>, positions: seq<nat>)
    returns (pushed: seq<seq<int>>)
    requires InBounds(positions, |order|)
    ensures pushed == newOrders + PairSwaps(order, positions, |positions|)
  {
    pushed := newOrders;
    for i := 0 to |positions|
      invariant pushed == newOrders + PairSwaps(order, positions, i)
    {
      ghost var rowStart := pushed;
      for j := i + 1 to |positions|
        invariant pushed == rowStart + RowSwaps(order, positions, i, j)
      {
        var newOrder := order;
        var temp := newOrder[positions[i]];
        newOrder := newOrder[positions[i] := newOrder[positions[j]]];
        newOrder := newOrder[positions[j] := temp];
        pushed := pushed + [newOrder];
      }
      assert pushed == newOrders + (PairSwaps(order, positions, i) + RowSwaps(order, positions, i, |positions|));
    }
  }

  // ---------------------------------------------------------------------------
  // Properties of the generated orders
  // ---------------------------------------------------------------------------

  /** A group takes part in the generation: two or more entries, two or more located. */
  predicate Effective(correctOrder: seq<int>, group: seq<int>)
  {
    |group| >= 2 && |Positions(correctOrder, group)| >= 2
  }

  /** The located positions of an effective group; nothing for a skipped one. */
  function GroupPositions(correctOrder: seq<int>, group: seq<int>): set<nat>
  {
    if Effective(correctOrder, group) then set p | p in Positions(correctOrder, group) else {}
  }

  /** The positions of `correctOrder` some effective group may move. */
  function FoundPositions(correctOrder: seq<int>, groups: seq<seq<int>>): set<nat>
  {
    if |groups| == 0 then {}
    else FoundPositions(correctOrder, groups[..|groups| - 1]) + GroupPositions(correctOrder, groups[|groups| - 1])
  }

  /** `o` has the length and the elements of `correctOrder` and differs from it only at `moved`. */
  predicate Rearranges(o: seq<int>, correctOrder: seq<int>, moved: set<nat>)
  {
    && |o| == |correctOrder|
    && multiset(o) == multiset(correctOrder)
    && forall k :: 0 <= k < |correctOrder| && k !in moved ==> o[k] == correctOrder[k]
  }

  /** The product of the growth factors of the groups. */
  function Growth(correctOrder: seq<int>, groups: seq<seq<int>>): nat
  {
    if |groups| == 0 then 1
    else Growth(correctOrder, groups[..|groups| - 1]) * GrowthFactor(|Positions(correctOrder, groups[|groups| - 1])|)
  }

  /** A skipped group leaves the list of orders unchanged. */
  lemma AddGroupSkips(correctOrder: seq<int>, orders: seq<seq<int>>, group: seq<int>)
    requires AllLength(orders, |correctOrder|)
    requires !Effective(correctOrder, group)
    ensures AddGroup(correctOrder, orders, group) == orders
  {
  }

  /** Each effective group multiplies the number of orders by 1 + k(k-1)/2, k its located positions. */
  lemma AddGroupGrowth(correctOrder: seq<int>, orders: seq<seq<int>>, group: seq<int>)
    requires AllLength(orders, |correctOrder|)
    ensures var k := |Positions(correctOrder, group)|;
      |AddGroup(correctOrder, orders, group)| == |orders| * (1 + k * (k - 1) / 2)
  {
    var k := |Positions(correctOrder, group)|;
    assert GrowthFactor(k) == 1 + k * (k - 1) / 2 by { PairsClosedForm(k); }
    AddGroupCount(correctOrder, orders, group);
    MulCongruent(|AddGroup(correctOrder, orders, group)|, |orders|, |orders|, GrowthFactor(k), 1 + k * (k - 1) / 2);
  }

  /** The generator returns the product of the groups' growth factors many orders. */
  lemma {:induction false} ValidOrdersCount(correctOrder: seq<int>, groups: seq<seq<int>>)
    ensures |ValidOrders(correctOrder, groups)| == Growth(correctOrder, groups)
  {
    if |groups| > 0 {
      var init, last := groups[..|groups| - 1], groups[|groups| - 1];
      var orders := ValidOrders(correctOrder, init);
      var factor := GrowthFactor(|Positions(correctOrder, last)|);
      assert ValidOrders(correctOrder, groups) == AddGroup(correctOrder, orders, last);
      assert Growth(correctOrder, groups) == Growth(correctOrder, init) * factor;
      ValidOrdersCount(correctOrder, init);
      AddGroupCount(correctOrder, orders, last);
      MulCongruent(|AddGroup(correctOrder, orders, last)|, |orders|, Growth(correctOrder, init), factor, factor);
    }
  }

  lemma SwapRearranges(order: seq<int>, correctOrder: seq<int>, moved: set<nat>, p: nat, q: nat)
    requires Rearranges(order, correctOrder, moved) && p < |order| && q < |order|
    ensures Rearranges(Swap(order, p, q), correctOrder, moved + {p, q})
  {
    SwapPermutes(order, p, q);
  }

  /** Swapping located positions keeps every order a rearrangement, with the group's positions moved. */
  lemma {:induction false} VariantsRearrange(correctOrder: seq<int>, orders: seq<seq<int>>, ps: seq<nat>,
                                             kEnd: nat, moved: set<nat>)
    requires AllLength(orders, |correctOrder|) && InBounds(ps, |correctOrder|) && kEnd <= |orders|
    requires forall o :: o in orders ==> Rearranges(o, correctOrder, moved)
    ensures forall o :: o in Variants(orders, ps, |correctOrder|, kEnd) ==>
              Rearranges(o, correctOrder, moved + set p | p in ps)
  {
    if kEnd > 0 {
      var order := orders[kEnd - 1];
      assert order in orders;
      var prev := Variants(orders, ps, |correctOrder|, kEnd - 1);
      var last := PairSwaps(order, ps, |ps|);
      assert Variants(orders, ps, |correctOrder|, kEnd) == prev + last;
      VariantsRearrange(correctOrder, orders, ps, kEnd - 1, moved);
      PairSwapsRearrange(correctOrder, order, ps, moved);
    }
  }

  /** The copies made for one rearranged order are rearranged, with the located positions moved. */
  lemma PairSwapsRearrange(correctOrder: seq<int>, order: seq<int>, ps: seq<nat>, moved: set<nat>)
    requires InBounds(ps, |order|) && Rearranges(order, correctOrder, moved)
    ensures forall o :: o in PairSwaps(order, ps, |ps|) ==> Rearranges(o, correctOrder, moved + set p | p in ps)
  {
    PairSwapsSound(order, ps, |ps|);
    forall o | o in PairSwaps(order, ps, |ps|)
      ensures Rearranges(o, correctOrder, moved + set p | p in ps)
    {
      var i, j :| 0 <= i < j < |ps| && o == SwapOf(order, ps, i, j);
      SwapRearranges(order, correctOrder, moved, ps[i], ps[j]);
      assert ps[i] in ps && ps[j] in ps;
    }
  }

  /** Every generated order is a rearrangement of the correct order that moves only located positions. */
  lemma {:induction false} ValidOrdersRearrange(correctOrder: seq<int>, groups: seq<seq<int>>)
    ensures forall o :: o in ValidOrders(correctOrder, groups) ==>
              Rearranges(o, correctOrder, FoundPositions(correctOrder, groups))
  {
    if |groups| > 0 {
      var init := groups[..|groups| - 1];
      var group := groups[|groups| - 1];
      var orders := ValidOrders(correctOrder, init);
      var moved := FoundPositions(correctOrder, init);
      ValidOrdersRearrange(correctOrder, init);
      if Effective(correctOrder, group) {
        var ps := Positions(correctOrder, group);
        VariantsRearrange(correctOrder, orders, ps, |orders|, moved);
      }
    }
  }

  /** The orders after the first m groups stay at the front of the final list. */
  lemma {:induction false} ValidOrdersPrefix(correctOrder: seq<int>, groups: seq<seq<int>>, m: nat)
    requires m <= |groups|
    ensures ValidOrders(correctOrder, groups[..m]) <= ValidOrders(correctOrder, groups)
    decreases |groups| - m
  {
    if m < |groups| {
      var init := groups[..|groups| - 1];
      assert init[..m] == groups[..m];
      ValidOrdersPrefix(correctOrder, init, m);
      var orders := ValidOrders(correctOrder, init);
      AddGroupExtends(correctOrder, orders, groups[|groups| - 1]);
    } else {
      assert groups[..m] == groups;
    }
  }

  /** The copies made for orders[t] are among the variants of orders[..kEnd] when t < kEnd. */
  lemma {:induction false} VariantsComplete(orders: seq<seq<int>>, ps: seq<nat>, n: nat, kEnd: nat,
                                            t: nat, i: nat, j: nat)
    requires AllLength(orders, n) && InBounds(ps, n) && kEnd <= |orders|
    requires t < kEnd && i < j < |ps|
    ensures orders[t] in orders && Swap(orders[t], ps[i], ps[j]) in Variants(orders, ps, n, kEnd)
  {
    assert orders[t] in orders && orders[kEnd - 1] in orders;
    var prev := Variants(orders, ps, n, kEnd - 1);
    var last := PairSwaps(orders[kEnd - 1], ps, |ps|);
    assert Variants(orders, ps, n, kEnd) == prev + last;
    if t < kEnd - 1 {
      VariantsComplete(orders, ps, n, kEnd - 1, t, i, j);
      assert Swap(orders[t], ps[i], ps[j]) in prev;
    } else {
      PairSwapsComplete(orders[t], ps, |ps|, i, j);
      assert Swap(orders[t], ps[i], ps[j]) in last;
    }
  }

  /** An effective round adds, for each existing order, every swap of two of the group's located positions. */
  lemma AddGroupSwaps(correctOrder: seq<int>, orders: seq<seq<int>>, group: seq<int>, t: nat, i: nat, j: nat)
    requires AllLength(orders, |correctOrder|) && t < |orders|
    requires Effective(correctOrder, group)
    requires i < |Positions(correctOrder, group)| && j < |Positions(correctOrder, group)|
    ensures var ps := Positions(correctOrder, group);
      Swap(orders[t], ps[i], ps[j]) in AddGroup(correctOrder, orders, group)
  {
    var ps := Positions(correctOrder, group);
    var after := AddGroup(correctOrder, orders, group);
    assert after == orders + Variants(orders, ps, |correctOrder|, |orders|);
    if i == j {
      assert Swap(orders[t], ps[i], ps[j]) == orders[t];
      assert after[t] == orders[t];
    } else {
      var lo, hi := if i < j then i else j, if i < j then j else i;
      VariantsComplete(orders, ps, |correctOrder|, |orders|, t, lo, hi);
      SwapSymmetric(orders[t], ps[i], ps[j]);
    }
  }

  /** Swapping any two located positions of an effective group in the correct order gives a generated order. */
  lemma GroupSwapGenerated(correctOrder: seq<int>, groups: seq<seq<int>>, g: nat, p: nat, q: nat)
    requires g < |groups| && Effective(correctOrder, groups[g])
    requires p in Positions(correctOrder, groups[g]) && q in Positions(correctOrder, groups[g])
    ensures p < |correctOrder| && q < |correctOrder|
    ensures Swap(correctOrder, p, q) in ValidOrders(correctOrder, groups)
  {
    var ps := Positions(correctOrder, groups[g]);
    var i :| 0 <= i < |ps| && ps[i] == p;
    var j :| 0 <= j < |ps| && ps[j] == q;
    var before := ValidOrders(correctOrder, groups[..g]);
    var after := ValidOrders(correctOrder, groups[..g + 1]);
    assert Swap(correctOrder, p, q) in after by {
      AddGroupSwaps(correctOrder, before, groups[g], 0, i, j);
      ValidOrdersStep(correctOrder, groups, g);
    }
    assert after <= ValidOrders(correctOrder, groups) by {
      ValidOrdersPrefix(correctOrder, groups, g + 1);
    }
  }

  // ---------------------------------------------------------------------------
  // The word-ordering answer check
  // ---------------------------------------------------------------------------

  /**
   * The verdict of checkSortAnswer: equal to the correct order, or, when there
   * are flexible groups, equal to one of the generated orders. Since the list
   * of generated orders starts with the correct order, this is membership.
   */
  function SortAnswerCorrect(submitted: seq<int>, correctOrder: seq<int>, flexibleOrder: seq<seq<int>>): (r: bool)
    ensures r <==> submitted in ValidOrders(correctOrder, flexibleOrder)
  {
    submitted == correctOrder || (|flexibleOrder| > 0 && submitted in ValidOrders(correctOrder, flexibleOrder))
  }

  /** An accepted answer is a rearrangement of the correct order moving only located positions; so an answer of another length is never accepted. */
  lemma SortAnswerRearranges(submitted: seq<int>, correctOrder: seq<int>, flexibleOrder: seq<seq<int>>)
    requires SortAnswerCorrect(submitted, correctOrder, flexibleOrder)
    ensures Rearranges(submitted, correctOrder, FoundPositions(correctOrder, flexibleOrder))
    ensures |submitted| == |correctOrder|
  {
    ValidOrdersRearrange(correctOrder, flexibleOrder);
  }

  /** The correct order itself is accepted, whatever the flexible groups. */
  lemma CorrectOrderAccepted(correctOrder: seq<int>, flexibleOrder: seq<seq<int>>)
    ensures SortAnswerCorrect(correctOrder, correctOrder, flexibleOrder)
  {
  }

  /** Without flexible groups an answer is accepted exactly when it is the correct order. */
  lemma SortAnswerExact(submitted: seq<int>, correctOrder: seq<int>)
    ensures SortAnswerCorrect(submitted, correctOrder, []) <==> submitted == correctOrder
  {
  }

  /** Exchanging two located positions of an effective group in the correct order is accepted. */
  lemma SortAnswerAcceptsGroupSwap(correctOrder: seq<int>, flexibleOrder: seq<seq<int>>, g: nat, p: nat, q: nat)
    requires g < |flexibleOrder| && Effective(correctOrder, flexibleOrder[g])
    requires p in Positions(correctOrder, flexibleOrder[g]) && q in Positions(correctOrder, flexibleOrder[g])
    ensures p < |correctOrder| && q < |correctOrder|
    ensures SortAnswerCorrect(Swap(correctOrder, p, q), correctOrder, flexibleOrder)
  {
    GroupSwapGenerated(correctOrder, flexibleOrder, g, p, q);
  }

  /** Example: without flexible groups only the exact order is accepted; [1,0,2] is rejected, [0,1,2] accepted. */
  lemma ExactOrderExample()
    ensures !SortAnswerCorrect([1, 0, 2], [0, 1, 2], [])
    ensures SortAnswerCorrect([0, 1, 2], [0, 1, 2], [])
  {
  }

  /** `o` has the length of `correctOrder` and differs from it in at most two positions. */
  predicate AtMostTwoMoved(o: seq<int>, correctOrder: seq<int>)
  {
    && |o| == |correctOrder|
    && forall a, b, c :: 0 <= a < b < c < |correctOrder| ==>
         o[a] == correctOrder[a] || o[b] == correctOrder[b] || o[c] == correctOrder[c]
  }

  /** A single exchange moves at most two entries. */
  lemma SwapMovesTwo(order: seq<int>, p: nat, q: nat)
    requires p < |order| && q < |order|
    ensures AtMostTwoMoved(Swap(order, p, q), order)
  {
    forall a, b, c | 0 <= a < b < c < |order|
      ensures Swap(order, p, q)[a] == order[a] || Swap(order, p, q)[b] == order[b] || Swap(order, p, q)[c] == order[c]
    {
      SwapAt(order, p, q, a);
      SwapAt(order, p, q, b);
      SwapAt(order, p, q, c);
    }
  }

  /**
   * With a single flexible group, every accepted order is the correct order
   * with at most one pair exchanged: the generator never composes two swaps
   * of the same group, so no rotation of three or more words is accepted.
   */
  lemma OneGroupMovesTwo(correctOrder: seq<int>, group: seq<int>)
    ensures forall o :: o in ValidOrders(correctOrder, [group]) ==> AtMostTwoMoved(o, correctOrder)
  {
    var groups := [group];
    var ps := Positions(correctOrder, group);
    assert ValidOrders(correctOrder, groups) == AddGroup(correctOrder, [correctOrder], group) by {
      assert groups[..0] == [];
    }
    assert AtMostTwoMoved(correctOrder, correctOrder);
    if |group| >= 2 && |ps| >= 2 {
      var swaps := PairSwaps(correctOrder, ps, |ps|);
      assert AddGroup(correctOrder, [correctOrder], group) == [correctOrder] + swaps by {
        assert Variants([correctOrder], ps, |correctOrder|, 1) == [] + swaps;
      }
      PairSwapsSound(correctOrder, ps, |ps|);
      forall o | o in swaps
        ensures AtMostTwoMoved(o, correctOrder)
      {
        var i, j :| 0 <= i < j < |ps| && o == SwapOf(correctOrder, ps, i, j);
        SwapMovesTwo(correctOrder, ps[i], ps[j]);
      }
    }
  }

  /**
   * Example: a group of all three words accepts single exchanges only, not all
   * six arrangements, so the rotation [1,2,0] is rejected.
   */
  lemma PairwiseSwapsMissRotation()
    ensures !SortAnswerCorrect([1, 2, 0], [0, 1, 2], [[0, 1, 2]])
  {
    var co, rotation := [0, 1, 2], [1, 2, 0];
    OneGroupMovesTwo(co, co);
    assert !AtMostTwoMoved(rotation, co) by {
      assert rotation[0] != co[0] && rotation[1] != co[1] && rotation[2] != co[2];
    }
  }
}
