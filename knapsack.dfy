/**
 * The capacity solver: value every bin, choose the bins to collect with a 0/1
 * knapsack over their weights, then order start, chosen bins and end by the
 * nearest-neighbour rule and report the open path's length.
 */
module Knapsack {
  import opened SeqFacts
  import opened RouteTypes
  import opened Distances
  import opened NearestNeighbor

  // ---------------------------------------------------------------- bin value

  /** `toLowerCase` on the ASCII letters; other characters are kept. */
  function LowerChar(c: char): (r: char)
    ensures 'A' <= c <= 'Z' ==> r as int == c as int + 32
    ensures !('A' <= c <= 'Z') ==> r == c
  {
    if 'A' <= c <= 'Z' then (c as int + 32) as char else c
  }

  function Lower(s: string): (r: string)
    ensures |r| == |s| && forall k :: 0 <= k < |s| ==> r[k] == LowerChar(s[k])
  {
    seq(|s|, k requires 0 <= k < |s| => LowerChar(s[k]))
  }

  /** `sub` occurs in `s` starting at position k. */
  predicate OccursAt(s: string, sub: string, k: nat) {
    k + |sub| <= |s| && s[k..k + |sub|] == sub
  }

  /** `s.includes(sub)`: `sub` occurs somewhere in `s` as a contiguous run. */
  function Includes(s: string, sub: string): (r: bool)
    ensures r <==> exists k: nat :: OccursAt(s, sub, k)
    decreases |s|
  {
    if |s| < |sub| then false
    else if s[..|sub|] == sub then assert OccursAt(s, sub, 0); true
    else
      var rest := Includes(s[1..], sub);
      ShiftOccurrence(s, sub);
      rest
  }

  /** Past position 0, an occurrence in `s` is an occurrence in `s[1..]` one place earlier. */
  lemma ShiftOccurrence(s: string, sub: string)
    requires |s| >= 1
    ensures forall k: nat :: OccursAt(s[1..], sub, k) ==> OccursAt(s, sub, k + 1)
    ensures forall k: nat :: k >= 1 && OccursAt(s, sub, k) ==> OccursAt(s[1..], sub, k - 1)
  {
    forall k: nat | OccursAt(s[1..], sub, k) ensures OccursAt(s, sub, k + 1) {
      assert s[1..][k..k + |sub|] == s[k + 1..k + 1 + |sub|];
    }
    forall k: nat | k >= 1 && OccursAt(s, sub, k) ensures OccursAt(s[1..], sub, k - 1) {
      assert s[1..][k - 1..k - 1 + |sub|] == s[k..k + |sub|];
    }
  }

  /** The location counts as a high-traffic area. */
  predicate BusyLocation(location: string) {
    var l := Lower(location);
    Includes(l, "main") || Includes(l, "central") || Includes(l, "avenue")
  }

  /** `calculateBinValue`: twice the fill level, +50 in a busy location, +100 at 90% fill or +50 at 75%. */
  function BinValue(b: Bin): nat {
    var value := b.fillLevel * 2;
    var value := if BusyLocation(b.location) then value + 50 else value;
    if b.fillLevel >= 90 then value + 100
    else if b.fillLevel >= 75 then value + 50
    else value
  }

  /** The bonuses add at most 150 on top of twice the fill level. */
  lemma BinValueBounds(b: Bin)
    ensures b.fillLevel * 2 <= BinValue(b) <= b.fillLevel * 2 + 150
    ensures b.fillLevel >= 90 ==> BinValue(b) >= b.fillLevel * 2 + 100
    ensures BinValue(b) == b.fillLevel * 2 <==> !BusyLocation(b.location) && b.fillLevel < 75
  {
  }

  /** Of two bins in the same location, the fuller one is worth at least as much. */
  lemma BinValueMonotone(a: Bin, b: Bin)
    requires a.location == b.location && a.fillLevel <= b.fillLevel
    ensures BinValue(a) <= BinValue(b)
  {
  }

  // ------------------------------------------------------------------- items

  /** A bin together with the weight and value the knapsack sees. */
  datatype Item = Item(bin: Bin, weight: nat, value: nat)

  function Items(bins: seq<Bin>): (items: seq<Item>)
    ensures |items| == |bins|
    ensures forall k :: 0 <= k < |bins| ==>
      items[k].bin == bins[k] && items[k].weight == BinWeight(bins[k]) && items[k].value == BinValue(bins[k])
  {
    seq(|bins|, k requires 0 <= k < |bins| => Item(bins[k], BinWeight(bins[k]), BinValue(bins[k])))
  }

  function SumWeights(its: seq<Item>): nat {
    if its == [] then 0 else its[0].weight + SumWeights(its[1..])
  }

  function SumValues(its: seq<Item>): nat {
    if its == [] then 0 else its[0].value + SumValues(its[1..])
  }

  function BinsOf(its: seq<Item>): (bins: seq<Bin>)
    ensures |bins| == |its| && forall k :: 0 <= k < |its| ==> bins[k] == its[k].bin
  {
    seq(|its|, k requires 0 <= k < |its| => its[k].bin)
  }

  /** The total weight of the items at the positions `sel`. */
  function SelWeight(items: seq<Item>, sel: seq<nat>): nat
    requires Bounded(sel, |items|)
  {
    if sel == [] then 0 else items[sel[0]].weight + SelWeight(items, sel[1..])
  }

  /** The total value of the items at the positions `sel`. */
  function SelValue(items: seq<Item>, sel: seq<nat>): nat
    requires Bounded(sel, |items|)
  {
    if sel == [] then 0 else items[sel[0]].value + SelValue(items, sel[1..])
  }

  /** Adding up the picked items' weights (the solver's `reduce`) gives the selection's weight. */
  lemma {:induction false} PickSums(items: seq<Item>, sel: seq<nat>)
    requires Bounded(sel, |items|)
    ensures SumWeights(Gather(items, sel)) == SelWeight(items, sel)
    ensures SumValues(Gather(items, sel)) == SelValue(items, sel)
  {
    if sel != [] {
      PickSums(items, sel[1..]);
      assert Gather(items, sel)[1..] == Gather(items, sel[1..]);
    }
  }

  /** Positions listed from the highest down, each at most once: a subset of the items. */
  predicate Descending(sel: seq<nat>) {
    forall a, b :: 0 <= a < b < |sel| ==> sel[a] > sel[b]
  }

  lemma DescendingCons(x: nat, rest: seq<nat>)
    requires Descending(rest) && Bounded(rest, x)
    ensures Descending([x] + rest)
  {
  }

  lemma SelCons(items: seq<Item>, x: nat, rest: seq<nat>)
    requires x < |items| && Bounded(rest, |items|)
    ensures Bounded([x] + rest, |items|)
    ensures SelWeight(items, [x] + rest) == items[x].weight + SelWeight(items, rest)
    ensures SelValue(items, [x] + rest) == items[x].value + SelValue(items, rest)
  {
    assert ([x] + rest)[1..] == rest;
  }

  /** Every bin has a positive fill level, so every item has a positive weight. */
  predicate PositiveWeights(items: seq<Item>) {
    forall k :: 0 <= k < |items| ==> items[k].weight > 0
  }

  // --------------------------------------------------------- the table as written

  /**
   * `dp[i][w]` as the bottom-up loop fills it: 0 in row 0 AND in column 0,
   * otherwise the better of taking item i - 1 (when it fits) or leaving it.
   */
  function Table(items: seq<Item>, i: nat, w: nat): nat
    requires i <= |items|
  {
    if i == 0 || w == 0 then 0
    else if items[i - 1].weight <= w then
      var take := items[i - 1].value + Table(items, i - 1, w - items[i - 1].weight);
      var leave := Table(items, i - 1, w);
      if take > leave then take else leave
    else Table(items, i - 1, w)
  }

  /**
   * The backtracking loop `for (i = n, w = capacity; i > 0 && w > 0; i--)`:
   * item i - 1 is chosen when its row differs from the row above, and the
   * capacity left shrinks by its weight.
   */
  function Backtrack(items: seq<Item>, i: nat, w: nat): (sel: seq<nat>)
    requires i <= |items|
    ensures Bounded(sel, i)
  {
    if i == 0 || w == 0 then []
    else if Table(items, i, w) != Table(items, i - 1, w) then [i - 1] + Backtrack(items, i - 1, w - items[i - 1].weight)
    else Backtrack(items, i - 1, w)
  }

  /** Where a row differs from the row above, its item fits and was taken. */
  lemma TakenRow(items: seq<Item>, i: nat, w: nat)
    requires 0 < i <= |items| && w > 0 && Table(items, i, w) != Table(items, i - 1, w)
    ensures items[i - 1].weight <= w
    ensures Table(items, i, w) == items[i - 1].value + Table(items, i - 1, w - items[i - 1].weight)
  {
  }

  /** The chosen positions descend, fit in `w`, and are worth exactly `dp[i][w]`. */
  lemma {:induction false} BacktrackSound(items: seq<Item>, i: nat, w: nat)
    requires i <= |items|
    ensures Descending(Backtrack(items, i, w))
    ensures SelWeight(items, Backtrack(items, i, w)) <= w
    ensures SelValue(items, Backtrack(items, i, w)) == Table(items, i, w)
  {
    if i == 0 || w == 0 {
    } else if Table(items, i, w) != Table(items, i - 1, w) {
      TakenRow(items, i, w);
      BacktrackSound(items, i - 1, w - items[i - 1].weight);
      TakeCase(items, i, w);
    } else {
      BacktrackSound(items, i - 1, w);
      assert Backtrack(items, i, w) == Backtrack(items, i - 1, w);
    }
  }

  /** The backtracked positions descend, fit in `w`, and are worth `dp[i][w]`. */
  predicate Sound(items: seq<Item>, i: nat, w: nat)
    requires i <= |items|
  {
    var sel := Backtrack(items, i, w);
    Descending(sel) && SelWeight(items, sel) <= w && SelValue(items, sel) == Table(items, i, w)
  }

  lemma TakeCase(items: seq<Item>, i: nat, w: nat)
    requires 0 < i <= |items| && w > 0 && Table(items, i, w) != Table(items, i - 1, w)
    requires items[i - 1].weight <= w
    requires Table(items, i, w) == items[i - 1].value + Table(items, i - 1, w - items[i - 1].weight)
    requires Sound(items, i - 1, w - items[i - 1].weight)
    ensures Sound(items, i, w)
  {
    var rest := Backtrack(items, i - 1, w - items[i - 1].weight);
    TakenPositions(items, i, w);
    DescendingCons(i - 1, rest);
    SelCons(items, i - 1, rest);
  }

  /** Where a row differs from the row above, the backtrack takes item i - 1 and continues at the capacity left. */
  lemma TakenPositions(items: seq<Item>, i: nat, w: nat)
    requires 0 < i <= |items| && w > 0 && Table(items, i, w) != Table(items, i - 1, w)
    requires items[i - 1].weight <= w
    ensures Backtrack(items, i, w) == [i - 1] + Backtrack(items, i - 1, w - items[i - 1].weight)
  {
  }

  /**
   * With positive weights the table is optimal: no subset of the first i
   * items that fits in w is worth more than `dp[i][w]`.
   */
  lemma {:induction false} TableOptimal(items: seq<Item>, i: nat, w: nat, sel: seq<nat>)
    requires i <= |items| && PositiveWeights(items)
    requires Descending(sel) && Bounded(sel, i) && SelWeight(items, sel) <= w
    ensures SelValue(items, sel) <= Table(items, i, w)
    decreases i
  {
    if sel == [] {
      return;
    }
    var rest := sel[1..];
    assert Descending(rest);
    if sel[0] == i - 1 {
      assert Bounded(rest, i - 1);
      TableOptimal(items, i - 1, w - items[i - 1].weight, rest);
    } else {
      assert Bounded(sel, i - 1);
      TableOptimal(items, i - 1, w, sel);
    }
  }

  /** A zero-weight bin with a location bonus, a 10 kg bin, and capacity 10. */
  function MissedBins(): seq<Bin> {
    [Bin("a", "main", 0, 0.0, 0.0), Bin("b", "lane", 1, 0.0, 0.0)]
  }

  /**
   * As written, column 0 is forced to 0, so when a bin fills the capacity
   * exactly, the zero-weight bins before it are not counted: the table offers
   * 50 while taking both bins fits and is worth 52.
   */
  lemma ForcedColumnMissesZeroWeightBin()
    ensures var items := Items(MissedBins());
      && Table(items, 2, 10) == 50
      && Descending([1, 0]) && Bounded([1, 0], 2)
      && SelWeight(items, [1, 0]) == 10
      && SelValue(items, [1, 0]) == 52
  {
    var items := Items(MissedBins());
    MissedItems();
    assert Table(items, 1, 0) == 0;
    assert Table(items, 1, 10) == 50;
    assert Table(items, 2, 10) == 50;
    assert [1, 0][1..] == [0];
    assert [0][1..] == [];
  }

  /** The items of the two bins: weight 0 worth 50 (busy location), weight 10 worth 2. */
  lemma MissedItems()
    ensures var items := Items(MissedBins());
      items == [Item(MissedBins()[0], 0, 50), Item(MissedBins()[1], 10, 2)]
  {
    var items := Items(MissedBins());
    assert Includes("main", "main") by {
      assert OccursAt("main", "main", 0);
    }
    assert Lower("main") == "main";
    assert items[0] == Item(MissedBins()[0], 0, 50);
    assert !Includes("lane", "main") by {
      assert "lane"[..4][0] == 'l';
      assert "lane"[1..] == "ane";
    }
    assert Lower("lane") == "lane";
    assert items[1] == Item(MissedBins()[1], 10, 2);
  }

  // ---------------------------------------------------- the table as intended

  /** The evidently intended table: only row 0 is forced to 0. */
  function FixedTable(items: seq<Item>, i: nat, w: nat): nat
    requires i <= |items|
  {
    if i == 0 then 0
    else if items[i - 1].weight <= w then
      var take := items[i - 1].value + FixedTable(items, i - 1, w - items[i - 1].weight);
      var leave := FixedTable(items, i - 1, w);
      if take > leave then take else leave
    else FixedTable(items, i - 1, w)
  }

  /** Backtracking over the intended table, which must also run on at capacity 0. */
  function FixedBacktrack(items: seq<Item>, i: nat, w: nat): (sel: seq<nat>)
    requires i <= |items|
    ensures Bounded(sel, i)
  {
    if i == 0 then []
    else if FixedTable(items, i, w) != FixedTable(items, i - 1, w) then
      [i - 1] + FixedBacktrack(items, i - 1, w - items[i - 1].weight)
    else FixedBacktrack(items, i - 1, w)
  }

  lemma FixedTakenRow(items: seq<Item>, i: nat, w: nat)
    requires 0 < i <= |items| && FixedTable(items, i, w) != FixedTable(items, i - 1, w)
    ensures items[i - 1].weight <= w
    ensures FixedTable(items, i, w) == items[i - 1].value + FixedTable(items, i - 1, w - items[i - 1].weight)
  {
  }

  /** On the intended table the chosen positions descend, fit in `w`, and are worth `FixedTable(i, w)`. */
  lemma {:induction false} FixedBacktrackSound(items: seq<Item>, i: nat, w: nat)
    requires i <= |items|
    ensures FixedSound(items, i, w)
  {
    if i == 0 {
    } else if FixedTable(items, i, w) != FixedTable(items, i - 1, w) {
      FixedTakenRow(items, i, w);
      FixedBacktrackSound(items, i - 1, w - items[i - 1].weight);
      FixedTakeCase(items, i, w);
    } else {
      FixedBacktrackSound(items, i - 1, w);
      assert FixedBacktrack(items, i, w) == FixedBacktrack(items, i - 1, w);
    }
  }

  /** The chosen positions descend, fit in `w`, and are worth `FixedTable(i, w)`. */
  predicate FixedSound(items: seq<Item>, i: nat, w: nat)
    requires i <= |items|
  {
    var sel := FixedBacktrack(items, i, w);
    Descending(sel) && SelWeight(items, sel) <= w && SelValue(items, sel) == FixedTable(items, i, w)
  }

  lemma FixedTakeCase(items: seq<Item>, i: nat, w: nat)
    requires 0 < i <= |items| && FixedTable(items, i, w) != FixedTable(items, i - 1, w)
    requires items[i - 1].weight <= w
    requires FixedTable(items, i, w) == items[i - 1].value + FixedTable(items, i - 1, w - items[i - 1].weight)
    requires FixedSound(items, i - 1, w - items[i - 1].weight)
    ensures FixedSound(items, i, w)
  {
    var rest := FixedBacktrack(items, i - 1, w - items[i - 1].weight);
    assert FixedBacktrack(items, i, w) == [i - 1] + rest;
    DescendingCons(i - 1, rest);
    SelCons(items, i - 1, rest);
  }

  /** The intended table is optimal for every weight, zero included. */
  lemma {:induction false} FixedTableOptimal(items: seq<Item>, i: nat, w: nat, sel: seq<nat>)
    requires i <= |items|
    requires Descending(sel) && Bounded(sel, i) && SelWeight(items, sel) <= w
    ensures SelValue(items, sel) <= FixedTable(items, i, w)
    decreases i
  {
    if sel == [] {
      return;
    }
    var rest := sel[1..];
    assert Descending(rest);
    if sel[0] == i - 1 {
      assert Bounded(rest, i - 1);
      FixedTableOptimal(items, i - 1, w - items[i - 1].weight, rest);
    } else {
      assert Bounded(sel, i - 1);
      FixedTableOptimal(items, i - 1, w, sel);
    }
  }

  /**
   * Where the two tables part, the selections part too. With capacity 10,
   * the code as written backtracks to bin a alone, while the corrected
   * backtrack takes b and then a. With capacity 0, the code as written takes
   * nothing, while the corrected backtrack still takes the empty bin a.
   */
  lemma SelectionsDiffer()
    ensures var items := Items(MissedBins());
      && Backtrack(items, 2, 10) == [0] && FixedBacktrack(items, 2, 10) == [1, 0]
      && Backtrack(items, 1, 0) == [] && FixedBacktrack(items, 1, 0) == [0]
  {
    var items := Items(MissedBins());
    MissedItems();
    assert Table(items, 1, 10) == 50 && Table(items, 2, 10) == 50;
    assert Backtrack(items, 1, 10) == [0];
    assert FixedTable(items, 1, 0) == 50 && FixedTable(items, 1, 10) == 50;
    assert FixedTable(items, 2, 10) == 52;
    assert FixedBacktrack(items, 1, 0) == [0];
  }

  /** On bins that all weigh something, the table as written and the intended one agree. */
  lemma {:induction false} TablesAgreeOnPositiveWeights(items: seq<Item>, i: nat, w: nat)
    requires i <= |items| && PositiveWeights(items)
    ensures Table(items, i, w) == FixedTable(items, i, w)
    decreases i
  {
    if i > 0 {
      TablesAgreeOnPositiveWeights(items, i - 1, w);
      if items[i - 1].weight <= w {
        TablesAgreeOnPositiveWeights(items, i - 1, w - items[i - 1].weight);
      }
      if w == 0 {
        FixedTableAtZero(items, i);
      }
    }
  }

  lemma {:induction false} FixedTableAtZero(items: seq<Item>, i: nat)
    requires i <= |items| && PositiveWeights(items)
    ensures FixedTable(items, i, 0) == 0
  {
    if i > 0 {
      FixedTableAtZero(items, i - 1);
    }
  }

  /**
   * When every bin weighs something, the corrected backtracking chooses
   * exactly the bins the code as written chooses.
   */
  lemma {:induction false} BacktracksAgreeOnPositiveWeights(items: seq<Item>, i: nat, w: nat)
    requires i <= |items| && PositiveWeights(items)
    ensures Backtrack(items, i, w) == FixedBacktrack(items, i, w)
    decreases i
  {
    if i > 0 {
      TablesAgreeOnPositiveWeights(items, i, w);
      TablesAgreeOnPositiveWeights(items, i - 1, w);
      if w == 0 {
        FixedTableAtZero(items, i);
        FixedTableAtZero(items, i - 1);
        BacktrackAtZero(items, i - 1);
      } else if Table(items, i, w) != Table(items, i - 1, w) {
        BacktracksAgreeOnPositiveWeights(items, i - 1, w - items[i - 1].weight);
      } else {
        BacktracksAgreeOnPositiveWeights(items, i - 1, w);
      }
    }
  }

  /** With positive weights nothing fits in capacity 0, so the corrected backtracking chooses nothing there. */
  lemma {:induction false} BacktrackAtZero(items: seq<Item>, i: nat)
    requires i <= |items| && PositiveWeights(items)
    ensures FixedBacktrack(items, i, 0) == []
  {
    if i > 0 {
      FixedTableAtZero(items, i);
      FixedTableAtZero(items, i - 1);
      BacktrackAtZero(items, i - 1);
    }
  }

  // ------------------------------------------------------------- the solver

  /**
   * The bottom-up loop of `knapsack`, with the column-0 shortcut dropped so
   * that zero-weight bins are counted: fill the (n+1) x (capacity+1) table
   * row by row.
   */
  method FillTable(items: seq<Item>, capacity: nat) returns (dp: array2<nat>)
    ensures fresh(dp) && dp.Length0 == |items| + 1 && dp.Length1 == capacity + 1
    ensures forall r, c {:trigger dp[r, c]} :: 0 <= r <= |items| && 0 <= c <= capacity ==> dp[r, c] == FixedTable(items, r, c)
  {
    var n := |items|;
    dp := new nat[n + 1, capacity + 1]((i, w) => 0);
    for i := 0 to n + 1
      invariant forall r, c {:trigger dp[r, c]} :: 0 <= r < i && 0 <= c <= capacity ==> dp[r, c] == FixedTable(items, r, c)
    {
      for w := 0 to capacity + 1
        invariant forall r, c {:trigger dp[r, c]} :: 0 <= r < i && 0 <= c <= capacity ==> dp[r, c] == FixedTable(items, r, c)
        invariant forall c {:trigger dp[i, c]} :: 0 <= c < w ==> dp[i, c] == FixedTable(items, i, c)
      {
        dp[i, w] := TableCell(items, dp, i, w);
      }
    }
  }

  /** One cell of the bottom-up loop, from the row above (the corrected rule: no column-0 shortcut). */
  method TableCell(items: seq<Item>, dp: array2<nat>, i: nat, w: nat) returns (cell: nat)
    requires i < dp.Length0 == |items| + 1 && w < dp.Length1
    requires forall r, c {:trigger dp[r, c]} :: 0 <= r < i && 0 <= c < dp.Length1 ==> dp[r, c] == FixedTable(items, r, c)
    ensures cell == FixedTable(items, i, w)
  {
    if i == 0 {
      cell := 0;
    } else if items[i - 1].weight <= w {
      var take := items[i - 1].value + dp[i - 1, w - items[i - 1].weight];
      var leave := dp[i - 1, w];
      cell := if take > leave then take else leave;
    } else {
      cell := dp[i - 1, w];
    }
  }

  /**
   * `knapsack(items, capacity)`: fill the table, then walk back from
   * `dp[n][capacity]` collecting the chosen items (down to row 0, also once
   * the capacity left is 0).
   */
  method SelectItems(items: seq<Item>, capacity: nat) returns (selectedItems: seq<Item>)
    ensures selectedItems == Gather(items, FixedBacktrack(items, |items|, capacity))
  {
    var n := |items|;
    var dp := FillTable(items, capacity);
    selectedItems := [];
    ghost var target := Gather(items, FixedBacktrack(items, n, capacity));
    assert TableHolds(items, dp);
    var i: nat, w: nat := n, capacity;
    while i > 0
      invariant i <= n && w <= capacity
      invariant TableHolds(items, dp)
      invariant selectedItems + Gather(items, FixedBacktrack(items, i, w)) == target
      decreases i
    {
      TableAt(items, dp, i, w);
      TableAt(items, dp, i - 1, w);
      if dp[i, w] != dp[i - 1, w] {
        TakeStep(items, i, w, selectedItems);
        selectedItems := selectedItems + [items[i - 1]];
        w := w - items[i - 1].weight;
      } else {
        LeaveStep(items, i, w);
      }
      i := i - 1;
    }
    assert selectedItems + [] == selectedItems;
  }

  /** Every cell of `dp` holds the corrected table entry. */
  ghost predicate TableHolds(items: seq<Item>, dp: array2<nat>)
    reads dp
  {
    dp.Length0 == |items| + 1
    && forall r, c {:trigger dp[r, c]} :: 0 <= r < dp.Length0 && 0 <= c < dp.Length1 ==> dp[r, c] == FixedTable(items, r, c)
  }

  lemma TableAt(items: seq<Item>, dp: array2<nat>, i: nat, w: nat)
    requires TableHolds(items, dp) && i < dp.Length0 && w < dp.Length1
    ensures dp[i, w] == FixedTable(items, i, w)
  {
  }

  /** One step of the backtracking loop that leaves item i - 1. */
  lemma LeaveStep(items: seq<Item>, i: nat, w: nat)
    requires 0 < i <= |items| && FixedTable(items, i, w) == FixedTable(items, i - 1, w)
    ensures FixedBacktrack(items, i, w) == FixedBacktrack(items, i - 1, w)
  {
  }

  /**
   * One step of the backtracking loop that takes item i - 1: it fits, and the
   * pending choice is that item followed by the backtrack from the row above
   * at the remaining capacity.
   */
  lemma TakeStep(items: seq<Item>, i: nat, w: nat, chosen: seq<Item>)
    requires 0 < i <= |items| && FixedTable(items, i, w) != FixedTable(items, i - 1, w)
    ensures items[i - 1].weight <= w
    ensures chosen + Gather(items, FixedBacktrack(items, i, w))
      == (chosen + [items[i - 1]]) + Gather(items, FixedBacktrack(items, i - 1, w - items[i - 1].weight))
  {
    FixedTakenRow(items, i, w);
    var rest := FixedBacktrack(items, i - 1, w - items[i - 1].weight);
    var picked := Gather(items, rest);
    assert FixedBacktrack(items, i, w) == [i - 1] + rest;
    GatherCons(items, i - 1, rest);
    assert chosen + ([items[i - 1]] + picked) == (chosen + [items[i - 1]]) + picked;
  }

  /** Every point of `path` is found by its id among `points`. */
  predicate IdsFound(points: seq<Bin>, path: seq<Bin>) {
    forall k :: 0 <= k < |path| ==> FindIndex(points, path[k].id) >= 0
  }

  /**
   * The table rows the distance loop of `solve` reads for `path`: each point
   * is looked up by its id (`allPoints.findIndex(p => p.id === ...)`).
   */
  function IdRows(points: seq<Bin>, path: seq<Bin>): (rows: seq<nat>)
    requires IdsFound(points, path)
    ensures |rows| == |path| && Bounded(rows, |points|)
    ensures forall k :: 0 <= k < |path| ==> rows[k] == FindIndex(points, path[k].id)
  {
    seq(|path|, k requires 0 <= k < |path| => FindIndex(points, path[k].id) as nat)
  }

  /** Every point of a path drawn from `points` is found by its id. */
  lemma PathIdsFound(points: seq<Bin>, tour: seq<nat>)
    requires Bounded(tour, |points|)
    ensures IdsFound(points, Gather(points, tour))
  {
    forall k | 0 <= k < |tour| ensures FindIndex(points, Gather(points, tour)[k].id) >= 0 {
      assert points[tour[k]].id == Gather(points, tour)[k].id;
    }
  }

  /** With unique ids the lookups find the tour's own positions back. */
  lemma IdRowsOfUnique(points: seq<Bin>, tour: seq<nat>)
    requires Bounded(tour, |points|) && UniqueIds(points) && IdsFound(points, Gather(points, tour))
    ensures IdRows(points, Gather(points, tour)) == tour
  {
    forall k | 0 <= k < |tour| ensures IdRows(points, Gather(points, tour))[k] == tour[k] {
      FindIndexOfUnique(points, tour[k]);
    }
  }

  /** The distance loop of `solve`: the open length over the rows found by id. */
  method PathDistance(d: seq<seq<real>>, points: seq<Bin>, path: seq<Bin>) returns (totalDistance: real)
    requires IsSquare(d) && |d| == |points| && IdsFound(points, path)
    ensures totalDistance == OpenLength(d, IdRows(points, path))
  {
    ghost var rows := IdRows(points, path);
    totalDistance := 0.0;
    if |path| == 0 {
      return;
    }
    for i := 0 to |path| - 1
      invariant totalDistance == OpenLength(d, rows[..i + 1])
    {
      assert rows[..i + 2][..i + 1] == rows[..i + 1];
      var currentIndex := FindIndex(points, path[i].id);
      var nextIndex := FindIndex(points, path[i + 1].id);
      totalDistance := totalDistance + d[currentIndex][nextIndex];
    }
    assert rows[..|path|] == rows;
  }

  /**
   * The bins the capacity solver collects for `request`, by the corrected
   * backtrack; `SelectionsDiffer` shows where this departs from the code as
   * written, and `ChosenAsWritten` that it does not when every bin holds something.
   */
  function Chosen(request: RouteRequest): seq<Item> {
    var items := Items(request.bins);
    Gather(items, FixedBacktrack(items, |items|, request.truckCapacity))
  }

  /** What `solve` answers: the greedy order over start, chosen bins and end, its open length, and the chosen weight. */
  ghost predicate KnapsackResponse(request: RouteRequest, h: GeoDistance, response: RouteResponse) {
    var chosen := Chosen(request);
    var points := Waypoints(request.startPoint, BinsOf(chosen), request.endPoint);
    var d := Matrix(points, h);
    exists tour: seq<nat> ::
      && IsGreedyTour(d, tour)
      && response.path == Gather(points, tour)
      && (PathIdsFound(points, tour); response.totalDistance == OpenLength(d, IdRows(points, response.path)))
      && response.capacityUsed == SumWeights(chosen)
  }

  method Solve(request: RouteRequest, h: GeoDistance) returns (response: RouteResponse)
    ensures response.executionTime == 0
    ensures KnapsackResponse(request, h, response)
  {
    var items := Items(request.bins);
    var selectedItems := SelectItems(items, request.truckCapacity);
    var allPoints := Waypoints(request.startPoint, BinsOf(selectedItems), request.endPoint);
    var distances := CalculateDistanceMatrix(allPoints, h);
    var tour := NearestNeighborTour(distances);
    var path := Gather(allPoints, tour);
    PathIdsFound(allPoints, tour);
    var totalDistance := PathDistance(distances, allPoints, path);
    var capacityUsed := SumWeights(selectedItems);
    response := RouteResponse(path, totalDistance, capacityUsed, 0);
  }

  /** The chosen bins never weigh more than the truck carries. */
  lemma KnapsackCapacity(request: RouteRequest, h: GeoDistance, response: RouteResponse)
    requires KnapsackResponse(request, h, response)
    ensures response.capacityUsed <= request.truckCapacity
  {
    var items := Items(request.bins);
    PickSums(items, FixedBacktrack(items, |items|, request.truckCapacity));
    FixedBacktrackSound(items, |items|, request.truckCapacity);
  }

  /**
   * The capacity solver's answer starts at the start point, visits the start,
   * every chosen bin and the end exactly once, and nothing else.
   */
  lemma KnapsackPathVisits(request: RouteRequest, h: GeoDistance, response: RouteResponse)
    requires KnapsackResponse(request, h, response)
    ensures |response.path| == |Chosen(request)| + 2
    ensures response.path[0] == StartPoint(request.startPoint)
    ensures forall b :: b in BinsOf(Chosen(request)) ==> b in response.path
    ensures EndPoint(request.endPoint) in response.path
    ensures forall b :: b in response.path ==>
      b == StartPoint(request.startPoint) || b == EndPoint(request.endPoint) || b in BinsOf(Chosen(request))
    ensures multiset(response.path) == multiset(Waypoints(request.startPoint, BinsOf(Chosen(request)), request.endPoint))
  {
    var middle := BinsOf(Chosen(request));
    var points := Waypoints(request.startPoint, middle, request.endPoint);
    var tour: seq<nat> :| IsGreedyTour(Matrix(points, h), tour) && response.path == Gather(points, tour);
    GreedyRouteVisitsAll(points, request.startPoint, middle, request.endPoint, h, tour);
  }

  /**
   * Every chosen bin is a bin of the request, each is chosen at most once,
   * and they come out in reverse input order (positions strictly descending).
   */
  lemma ChosenFromRequest(request: RouteRequest)
    ensures forall b :: b in BinsOf(Chosen(request)) ==> b in request.bins
    ensures exists sel: seq<nat> ::
      Descending(sel) && Bounded(sel, |request.bins|) && Chosen(request) == Gather(Items(request.bins), sel)
  {
    var items := Items(request.bins);
    var sel := FixedBacktrack(items, |items|, request.truckCapacity);
    FixedBacktrackSound(items, |items|, request.truckCapacity);
    forall b | b in BinsOf(Chosen(request)) ensures b in request.bins {
      var k :| 0 <= k < |BinsOf(Chosen(request))| && BinsOf(Chosen(request))[k] == b;
      assert b == items[sel[k]].bin == request.bins[sel[k]];
    }
  }

  /** When every point id is unique, the reported distance is the open length of the greedy order. */
  lemma KnapsackDistance(request: RouteRequest, h: GeoDistance, response: RouteResponse)
    requires KnapsackResponse(request, h, response)
    requires UniqueIds(Waypoints(request.startPoint, BinsOf(Chosen(request)), request.endPoint))
    ensures exists tour: seq<nat> ::
      var points := Waypoints(request.startPoint, BinsOf(Chosen(request)), request.endPoint);
      IsGreedyTour(Matrix(points, h), tour) && response.totalDistance == OpenLength(Matrix(points, h), tour)
    ensures NonNegative(h) ==> response.totalDistance >= 0.0
  {
    var points := Waypoints(request.startPoint, BinsOf(Chosen(request)), request.endPoint);
    var d := Matrix(points, h);
    var tour: seq<nat> :| IsGreedyTour(d, tour) && response.path == Gather(points, tour)
      && (PathIdsFound(points, tour); response.totalDistance == OpenLength(d, IdRows(points, response.path)));
    PathIdsFound(points, tour);
    IdRowsOfUnique(points, tour);
    if NonNegative(h) {
      MatrixProperties(points, h);
      OpenLengthNonNegative(d, tour);
    }
  }

  /**
   * The chosen bins (by the corrected backtrack) are worth as much as any
   * subset of the bins that fits; for the code as written this holds only
   * when every bin holds something (`TableOptimal`).
   */
  lemma ChosenIsOptimal(request: RouteRequest, sel: seq<nat>)
    requires Descending(sel) && Bounded(sel, |request.bins|)
    requires SumWeights(Gather(Items(request.bins), sel)) <= request.truckCapacity
    ensures SumValues(Gather(Items(request.bins), sel)) <= SumValues(Chosen(request))
  {
    var items := Items(request.bins);
    PickSums(items, sel);
    PickSums(items, FixedBacktrack(items, |items|, request.truckCapacity));
    FixedTableOptimal(items, |items|, request.truckCapacity, sel);
    FixedBacktrackSound(items, |items|, request.truckCapacity);
  }

  /** When every bin holds something, the chosen bins are exactly those the code as written chooses. */
  lemma ChosenAsWritten(request: RouteRequest)
    requires forall k :: 0 <= k < |request.bins| ==> request.bins[k].fillLevel > 0
    ensures var items := Items(request.bins);
      Chosen(request) == Gather(items, Backtrack(items, |items|, request.truckCapacity))
  {
    var items := Items(request.bins);
    assert PositiveWeights(items);
    BacktracksAgreeOnPositiveWeights(items, |items|, request.truckCapacity);
  }

  /** Two runs on the same request give the same answer, apart from the timing. */
  lemma KnapsackDeterministic(request: RouteRequest, h: GeoDistance, r1: RouteResponse, r2: RouteResponse)
    requires KnapsackResponse(request, h, r1) && KnapsackResponse(request, h, r2)
    ensures r1.path == r2.path && r1.totalDistance == r2.totalDistance && r1.capacityUsed == r2.capacityUsed
  {
    var points := Waypoints(request.startPoint, BinsOf(Chosen(request)), request.endPoint);
    var d := Matrix(points, h);
    var t1: seq<nat> :| IsGreedyTour(d, t1) && r1.path == Gather(points, t1);
    var t2: seq<nat> :| IsGreedyTour(d, t2) && r2.path == Gather(points, t2);
    GreedyTourUnique(d, t1, t2);
  }
}
