/** Wrestlers with several All-American finishes: the funnel of finish
    counts, wrestlers who placed at more than one weight, the weight
    changes between consecutive seasons, the eligibility-class
    combinations by number of finishes, and the "Name (p-p-DNP-p)"
    placement text. */
module MultiAA {
  import opened Results
  import opened Text
  import opened Records

  // ---------------------------------------------------------------------
  // Funnel of finish counts

  /** `groupby("Wrestler").size()` for one wrestler. */
  function AACount(t: Table, w: string): nat {
    |RowsOf(t, w)|
  }

  /** The funnel tier of a career of n finishes: n itself up to four, and
      five for five or more (`n_5x` counts `>= 5`). */
  function FunnelTier(n: nat): nat {
    if n >= 5 then 5 else n
  }

  /** How many of ws are in funnel tier k. */
  function CountInTier(t: Table, ws: seq<string>, k: nat): (r: nat)
    ensures r <= |ws|
  {
    if ws == [] then 0
    else CountInTier(t, ws[..|ws| - 1], k) + (if FunnelTier(AACount(t, ws[|ws| - 1])) == k then 1 else 0)
  }

  /** How many of ws have more than one finish (`multi_aa_mask`). */
  function CountMultiAA(t: Table, ws: seq<string>): (r: nat)
    ensures r <= |ws|
  {
    if ws == [] then 0
    else CountMultiAA(t, ws[..|ws| - 1]) + (if AACount(t, ws[|ws| - 1]) > 1 then 1 else 0)
  }

  /** `funnel_counts = [n_1x, n_2x, n_3x, n_4x, n_5x]`. */
  function Funnel(t: Table): (r: seq<nat>)
    ensures |r| == 5
    ensures forall k | 0 <= k < 5 :: r[k] <= |Wrestlers(t)|
  {
    var ws := Wrestlers(t);
    seq(5, k requires 0 <= k < 5 => CountInTier(t, ws, k + 1))
  }

  lemma {:induction false} TiersPartition(t: Table, ws: seq<string>)
    requires forall w | w in ws :: AACount(t, w) >= 1
    ensures CountInTier(t, ws, 1) + CountInTier(t, ws, 2) + CountInTier(t, ws, 3)
            + CountInTier(t, ws, 4) + CountInTier(t, ws, 5) == |ws|
    ensures CountMultiAA(t, ws)
            == CountInTier(t, ws, 2) + CountInTier(t, ws, 3) + CountInTier(t, ws, 4) + CountInTier(t, ws, 5)
  {
    if ws != [] {
      TiersPartition(t, ws[..|ws| - 1]);
    }
  }

  /** Every wrestler is in exactly one funnel tier, and the multi-AA
      wrestlers are those of tiers 2 to 5. */
  lemma FunnelCoversEveryone(t: Table)
    ensures var f := Funnel(t);
            f[0] + f[1] + f[2] + f[3] + f[4] == |Wrestlers(t)|
            && CountMultiAA(t, Wrestlers(t)) == f[1] + f[2] + f[3] + f[4]
  {
    var ws := Wrestlers(t);
    forall w | w in ws ensures AACount(t, w) >= 1 {
      WrestlerHasRows(t, w);
    }
    TiersPartition(t, ws);
  }

  // ---------------------------------------------------------------------
  // Wrestlers who placed at more than one weight

  /** The distinct weights of some rows. */
  function WeightSet(rows: Table): set<int> {
    set x | x in rows :: x.weight
  }

  /** `groupby("Wrestler")["Weight"].nunique()` for one wrestler. */
  function WeightCount(t: Table, w: string): nat {
    |WeightSet(RowsOf(t, w))|
  }

  lemma {:induction false} WeightSetSize(rows: Table)
    ensures |WeightSet(rows)| <= |rows|
    ensures rows != [] ==> |WeightSet(rows)| >= 1
  {
    if rows != [] {
      var init, x := rows[..|rows| - 1], rows[|rows| - 1];
      assert rows == init + [x];
      WeightSetSize(init);
      assert WeightSet(rows) == WeightSet(init) + {x.weight};
    }
  }

  /** A wrestler has between one weight and one weight per finish. */
  lemma WeightCountBounds(t: Table, w: string)
    requires w in Wrestlers(t)
    ensures 1 <= WeightCount(t, w) <= AACount(t, w)
  {
    WrestlerHasRows(t, w);
    WeightSetSize(RowsOf(t, w));
  }

  /** How many of ws placed at exactly n weights (`weights_per_wrestler == n`). */
  function CountWithWeights(t: Table, ws: seq<string>, n: nat): (r: nat)
    ensures r <= |ws|
  {
    if ws == [] then 0
    else CountWithWeights(t, ws[..|ws| - 1], n) + (if WeightCount(t, ws[|ws| - 1]) == n then 1 else 0)
  }

  /** How many of ws placed at n or more weights (`>= 2` is `multi_weight_mask`). */
  function CountWithWeightsFrom(t: Table, ws: seq<string>, n: nat): (r: nat)
    ensures r <= |ws|
  {
    if ws == [] then 0
    else CountWithWeightsFrom(t, ws[..|ws| - 1], n) + (if WeightCount(t, ws[|ws| - 1]) >= n then 1 else 0)
  }

  lemma {:induction false} WeightsFromSplit(t: Table, ws: seq<string>, n: nat)
    ensures CountWithWeightsFrom(t, ws, n) == CountWithWeights(t, ws, n) + CountWithWeightsFrom(t, ws, n + 1)
  {
    if ws != [] {
      WeightsFromSplit(t, ws[..|ws| - 1], n);
    }
  }

  /** `n_multi_weight_aa` is split by `multi_weight_by_n` into the wrestlers
      at exactly 2, 3 and 4 weights; only wrestlers at five or more weights
      fall outside that table. */
  lemma MultiWeightByN(t: Table, ws: seq<string>)
    ensures CountWithWeightsFrom(t, ws, 2)
            == CountWithWeights(t, ws, 2) + CountWithWeights(t, ws, 3) + CountWithWeights(t, ws, 4)
               + CountWithWeightsFrom(t, ws, 5)
  {
    WeightsFromSplit(t, ws, 2);
    WeightsFromSplit(t, ws, 3);
    WeightsFromSplit(t, ws, 4);
  }

  // ---------------------------------------------------------------------
  // Weight-change transitions

  datatype Direction = Up | Down

  datatype PlaceChange = Improved | Worse | Same

  /** One entry of `transitions`. */
  datatype Transition = Transition(
    wrestler: string,
    fromWeight: int,
    toWeight: int,
    fromPlace: int,
    toPlace: int,
    direction: Direction,
    change: PlaceChange)

  /** The transition between two consecutive finishes: up when the second
      weight is heavier; improved when the second place is better (lower),
      worse when it is lower down, same otherwise. */
  function MakeTransition(w: string, r1: Record, r2: Record): (t: Transition)
    ensures t.wrestler == w
    ensures (t.fromWeight, t.toWeight, t.fromPlace, t.toPlace) == (r1.weight, r2.weight, r1.place, r2.place)
    ensures t.direction == Up <==> r2.weight > r1.weight
    ensures t.change == Improved <==> r2.place < r1.place
    ensures t.change == Worse <==> r2.place > r1.place
  {
    var direction := if r2.weight > r1.weight then Up else Down;
    var change := if r2.place < r1.place then Improved else if r2.place > r1.place then Worse else Same;
    Transition(w, r1.weight, r2.weight, r1.place, r2.place, direction, change)
  }

  /** Consecutive rows i and i + 1 are at different weights. */
  predicate WeightChangesAt(rows: Table, i: int)
    requires 0 <= i < |rows| - 1
  {
    rows[i].weight != rows[i + 1].weight
  }

  /** The transitions of one career whose rows are in order: one per
      consecutive pair at different weights, in order. */
  function CareerTransitions(w: string, rows: Table): (r: seq<Transition>)
    ensures |rows| < 2 ==> r == []
    ensures |r| < |rows| || rows == []
  {
    if |rows| < 2 then []
    else
      var init := rows[..|rows| - 1];
      var n := |rows|;
      CareerTransitions(w, init)
      + (if rows[n - 2].weight != rows[n - 1].weight then [MakeTransition(w, rows[n - 2], rows[n - 1])] else [])
  }

  /** A transition is recorded exactly for consecutive rows whose weights
      differ. */
  lemma {:induction false} TransitionsExactly(w: string, rows: Table)
    ensures forall x :: x in CareerTransitions(w, rows) <==>
              exists i | 0 <= i < |rows| - 1 :: WeightChangesAt(rows, i) && x == MakeTransition(w, rows[i], rows[i + 1])
  {
    if |rows| >= 2 {
      var init := rows[..|rows| - 1];
      var n := |rows|;
      TransitionsExactly(w, init);
      forall i | 0 <= i < n - 2
        ensures WeightChangesAt(init, i) == WeightChangesAt(rows, i)
        ensures MakeTransition(w, init[i], init[i + 1]) == MakeTransition(w, rows[i], rows[i + 1])
      {
      }
    }
  }

  /** 0, 1, ..., n - 1. */
  function Range(n: int): (r: seq<int>)
    ensures |r| == if n <= 0 then 0 else n
    ensures forall k | 0 <= k < |r| :: r[k] == k
  {
    if n <= 0 then [] else Range(n - 1) + [n - 1]
  }

  /** The test "rows i and i + 1 are at different weights". */
  function ChangesWeight(rows: Table): int -> bool {
    (i: int) => 0 <= i < |rows| - 1 && rows[i].weight != rows[i + 1].weight
  }

  /** The positions at which the weight changes, in increasing order. */
  function ChangeIndices(rows: Table): seq<int> {
    Filter(Range(|rows| - 1), ChangesWeight(rows))
  }

  lemma ChangeIndicesStep(rows: Table)
    requires |rows| >= 2
    ensures ChangeIndices(rows) == ChangeIndices(rows[..|rows| - 1])
      + (if rows[|rows| - 2].weight != rows[|rows| - 1].weight then [|rows| - 2] else [])
  {
    var n, init := |rows|, rows[..|rows| - 1];
    assert Range(n - 1) == Range(n - 2) + [n - 2];
    FilterConcat(Range(n - 2), [n - 2], ChangesWeight(rows));
    FilterAgree(Range(n - 2), ChangesWeight(rows), ChangesWeight(init));
    assert [n - 2][..0] == [];
  }

  /** The k-th transition of a career is the one at its k-th weight change:
      every change yields exactly one transition, in order, including
      repeats of an equal transition. */
  lemma {:induction false} TransitionsIndexed(w: string, rows: Table)
    ensures forall k | 0 <= k < |ChangeIndices(rows)| ::
      0 <= ChangeIndices(rows)[k] < |rows| - 1 && WeightChangesAt(rows, ChangeIndices(rows)[k])
    ensures |CareerTransitions(w, rows)| == |ChangeIndices(rows)|
    ensures forall k | 0 <= k < |ChangeIndices(rows)| ::
      CareerTransitions(w, rows)[k] == MakeTransition(w, rows[ChangeIndices(rows)[k]], rows[ChangeIndices(rows)[k] + 1])
  {
    ChangeIndicesBounds(rows);
    if |rows| >= 2 {
      var n, init := |rows|, rows[..|rows| - 1];
      TransitionsIndexed(w, init);
      ChangeIndicesStep(rows);
      var change := rows[n - 2].weight != rows[n - 1].weight;
      TransitionsStep(w, rows);
      PairedExtend(w, rows, CareerTransitions(w, init), ChangeIndices(init), change);
    }
  }

  lemma TransitionsStep(w: string, rows: Table)
    requires |rows| >= 2
    ensures CareerTransitions(w, rows) == CareerTransitions(w, rows[..|rows| - 1])
      + (if rows[|rows| - 2].weight != rows[|rows| - 1].weight
         then [MakeTransition(w, rows[|rows| - 2], rows[|rows| - 1])] else [])
  {
  }

  /** The k-th of ct is the transition at position ix[k] of rows. */
  predicate Paired(w: string, rows: Table, ct: seq<Transition>, ix: seq<int>) {
    |ct| == |ix|
    && forall k | 0 <= k < |ix| ::
         0 <= ix[k] < |rows| - 1 && ct[k] == MakeTransition(w, rows[ix[k]], rows[ix[k] + 1])
  }

  lemma PairedExtend(w: string, rows: Table, ct0: seq<Transition>, ix0: seq<int>, change: bool)
    requires |rows| >= 2
    requires |ct0| == |ix0|
    requires forall k | 0 <= k < |ix0| ::
      0 <= ix0[k] < |rows| - 2 && ct0[k] == MakeTransition(w, rows[..|rows| - 1][ix0[k]], rows[..|rows| - 1][ix0[k] + 1])
    ensures Paired(w, rows,
      ct0 + (if change then [MakeTransition(w, rows[|rows| - 2], rows[|rows| - 1])] else []),
      ix0 + (if change then [|rows| - 2] else []))
  {
  }

  /** Each listed position is one where the weight changes. */
  lemma ChangeIndicesBounds(rows: Table)
    ensures forall k | 0 <= k < |ChangeIndices(rows)| ::
      0 <= ChangeIndices(rows)[k] < |rows| - 1 && WeightChangesAt(rows, ChangeIndices(rows)[k])
  {
    var ix := ChangeIndices(rows);
    forall k | 0 <= k < |ix| ensures 0 <= ix[k] < |rows| - 1 && WeightChangesAt(rows, ix[k]) {
      assert ChangesWeight(rows)(ix[k]);
    }
  }

  /** The weight changes are listed in increasing position, each once. */
  lemma {:induction false} ChangeIndicesIncreasing(rows: Table)
    ensures forall k, l | 0 <= k < l < |ChangeIndices(rows)| :: ChangeIndices(rows)[k] < ChangeIndices(rows)[l]
  {
    if |rows| >= 2 {
      var init := rows[..|rows| - 1];
      ChangeIndicesIncreasing(init);
      ChangeIndicesStep(rows);
      var ix, ix0 := ChangeIndices(rows), ChangeIndices(init);
      ChangeIndicesBounds(init);
    }
  }

  lemma {:induction false} NoChangeOneWeight(rows: Table)
    requires rows != []
    requires forall i | 0 <= i < |rows| - 1 :: !WeightChangesAt(rows, i)
    ensures WeightSet(rows) == {rows[0].weight}
  {
    if |rows| > 1 {
      var init := rows[..|rows| - 1];
      assert forall i | 0 <= i < |init| - 1 :: !WeightChangesAt(init, i) by {
        forall i | 0 <= i < |init| - 1 ensures !WeightChangesAt(init, i) {
          assert !WeightChangesAt(rows, i);
        }
      }
      NoChangeOneWeight(init);
      assert rows == init + [rows[|rows| - 1]];
      assert !WeightChangesAt(rows, |rows| - 2);
      assert WeightSet(rows) == WeightSet(init) + {rows[|rows| - 1].weight};
    }
  }

  /** A career's rows show a weight change somewhere exactly when they
      hold two or more distinct weights. */
  lemma SomeChangeIffTwoWeights(rows: Table)
    ensures (exists i | 0 <= i < |rows| - 1 :: WeightChangesAt(rows, i)) <==> |WeightSet(rows)| >= 2
  {
    if exists i | 0 <= i < |rows| - 1 :: WeightChangesAt(rows, i) {
      var i :| 0 <= i < |rows| - 1 && WeightChangesAt(rows, i);
      assert rows[i] in rows && rows[i + 1] in rows;
      assert {rows[i].weight, rows[i + 1].weight} <= WeightSet(rows);
      assert |{rows[i].weight, rows[i + 1].weight}| == 2;
      SubsetSize({rows[i].weight, rows[i + 1].weight}, WeightSet(rows));
    } else if rows != [] {
      NoChangeOneWeight(rows);
    }
  }

  lemma SubsetSize(a: set<int>, b: set<int>)
    requires a <= b
    ensures |a| <= |b|
  {
    assert b == a + (b - a);
  }

  lemma WeightSetChronological(rows: Table)
    ensures WeightSet(Chronological(rows)) == WeightSet(rows)
  {
    var c := Chronological(rows);
    forall x | x in c ensures x in rows {
      assert x in multiset(c);
    }
    forall x | x in rows ensures x in c {
      assert x in multiset(rows);
    }
  }

  /** Only multi-weight wrestlers have transitions: restricting the loop
      to `multi_weight_wrestlers` loses none. */
  lemma MultiWeightIffTransitions(t: Table, w: string)
    ensures WeightCount(t, w) >= 2 <==> CareerTransitions(w, Chronological(RowsOf(t, w))) != []
  {
    var rows := Chronological(RowsOf(t, w));
    TransitionsExactly(w, rows);
    SomeChangeIffTwoWeights(rows);
    WeightSetChronological(RowsOf(t, w));
    if exists i | 0 <= i < |rows| - 1 :: WeightChangesAt(rows, i) {
      var i :| 0 <= i < |rows| - 1 && WeightChangesAt(rows, i);
      assert MakeTransition(w, rows[i], rows[i + 1]) in CareerTransitions(w, rows);
    }
    var ts := CareerTransitions(w, rows);
    if ts != [] {
      assert ts[0] in ts;
    }
  }

  /** The transitions of the careers of ws, in order. */
  function AllTransitions(t: Table, ws: seq<string>): seq<Transition> {
    if ws == [] then []
    else
      var w := ws[|ws| - 1];
      AllTransitions(t, ws[..|ws| - 1]) + CareerTransitions(w, Chronological(RowsOf(t, w)))
  }

  /** The inner loop over one career's consecutive pairs. */
  method ScanCareer(w: string, rows: Table) returns (ts: seq<Transition>)
    ensures ts == CareerTransitions(w, rows)
  {
    ts := [];
    if |rows| >= 2 {
      for i := 0 to |rows| - 1
        invariant ts == CareerTransitions(w, rows[..i + 1])
      {
        assert rows[..i + 2][..i + 1] == rows[..i + 1];
        if rows[i].weight != rows[i + 1].weight {
          ts := ts + [MakeTransition(w, rows[i], rows[i + 1])];
        }
      }
      assert rows[..|rows|] == rows;
    }
  }

  /** The transition loop: for each wrestler, rows in `_order`, every
      consecutive pair at different weights is appended. */
  method CollectTransitions(t: Table, ws: seq<string>) returns (ts: seq<Transition>)
    ensures ts == AllTransitions(t, ws)
  {
    ts := [];
    for j := 0 to |ws|
      invariant ts == AllTransitions(t, ws[..j])
    {
      var w := ws[j];
      var found := ScanCareer(w, Chronological(RowsOf(t, w)));
      assert ws[..j + 1][..j] == ws[..j];
      ts := ts + found;
    }
    assert ws[..|ws|] == ws;
  }

  // ---------------------------------------------------------------------
  // Statistics of the transitions

  /** `weight_move_stats`. */
  datatype MoveStats = MoveStats(
    transitions: nat,
    movesUp: nat,
    movesDown: nat,
    upImproved: nat,
    upWorse: nat,
    upSame: nat,
    downImproved: nat,
    downWorse: nat,
    downSame: nat)

  function CountDirection(ts: seq<Transition>, d: Direction): (r: nat)
    ensures r <= |ts|
  {
    if ts == [] then 0
    else CountDirection(ts[..|ts| - 1], d) + (if ts[|ts| - 1].direction == d then 1 else 0)
  }

  function CountOutcome(ts: seq<Transition>, d: Direction, c: PlaceChange): (r: nat)
    ensures r <= CountDirection(ts, d)
  {
    if ts == [] then 0
    else
      var x := ts[|ts| - 1];
      CountOutcome(ts[..|ts| - 1], d, c) + (if x.direction == d && x.change == c then 1 else 0)
  }

  lemma {:induction false} DirectionsSplit(ts: seq<Transition>)
    ensures CountDirection(ts, Up) + CountDirection(ts, Down) == |ts|
  {
    if ts != [] {
      DirectionsSplit(ts[..|ts| - 1]);
    }
  }

  lemma {:induction false} OutcomesSplit(ts: seq<Transition>, d: Direction)
    ensures CountOutcome(ts, d, Improved) + CountOutcome(ts, d, Worse) + CountOutcome(ts, d, Same)
            == CountDirection(ts, d)
  {
    if ts != [] {
      OutcomesSplit(ts[..|ts| - 1], d);
    }
  }

  /** The statistics, or `None` (the source's `{}`) when no wrestler
      changed weight; moves up and down add up to all transitions, and
      improved, worse and same add up to the moves in each direction. */
  function WeightMoveStats(ts: seq<Transition>): (r: Option<MoveStats>)
    ensures r.None? <==> ts == []
    ensures r.Some? ==> r.value.transitions == |ts|
                        && r.value.movesUp + r.value.movesDown == r.value.transitions
                        && r.value.upImproved + r.value.upWorse + r.value.upSame == r.value.movesUp
                        && r.value.downImproved + r.value.downWorse + r.value.downSame == r.value.movesDown
  {
    if ts == [] then None
    else
      DirectionsSplit(ts);
      OutcomesSplit(ts, Up);
      OutcomesSplit(ts, Down);
      Some(MoveStats(|ts|, CountDirection(ts, Up), CountDirection(ts, Down),
                     CountOutcome(ts, Up, Improved), CountOutcome(ts, Up, Worse), CountOutcome(ts, Up, Same),
                     CountOutcome(ts, Down, Improved), CountOutcome(ts, Down, Worse), CountOutcome(ts, Down, Same)))
  }

  // ---------------------------------------------------------------------
  // Eligibility-class combinations

  function EligsOf(rows: Table): (r: seq<Elig>)
    ensures |r| == |rows|
    ensures forall k | 0 <= k < |rows| :: r[k] == rows[k].elig
  {
    if rows == [] then [] else EligsOf(rows[..|rows| - 1]) + [rows[|rows| - 1].elig]
  }

  function RankKey(e: Elig): int {
    Rank(e)
  }

  /** Classes in `ELIGIBILITY_ORDER`, each at most once. */
  predicate InClassOrder(s: seq<Elig>) {
    forall i, j | 0 <= i < j < |s| :: Rank(s[i]) < Rank(s[j])
  }

  /** `elig_combo = tuple(sorted(eligs.unique(), key=elig_order.index))`:
      the classes the wrestler placed in, each once, in class order. */
  function Combo(rows: Table): (r: seq<Elig>)
    ensures forall e :: e in r <==> HasClass(rows, e)
    ensures InClassOrder(r)
  {
    var eligs := EligsOf(rows);
    var u := Dedup(eligs);
    var s := SortBy(u, RankKey);
    SortedDedupMembers(eligs, s);
    EligsOfHasClass(rows);
    s
  }

  lemma SortedDedupMembers(eligs: seq<Elig>, s: seq<Elig>)
    requires s == SortBy(Dedup(eligs), RankKey)
    ensures Distinct(s)
    ensures forall e :: e in s <==> e in eligs
  {
    var u := Dedup(eligs);
    DistinctPermutation(u, s);
    forall e ensures e in s <==> e in u {
      assert e in s <==> e in multiset(s);
      assert e in u <==> e in multiset(u);
    }
  }

  lemma EligsOfHasClass(rows: Table)
    ensures forall e :: e in EligsOf(rows) <==> HasClass(rows, e)
  {
    var eligs := EligsOf(rows);
    forall e ensures e in eligs <==> HasClass(rows, e) {
      if e in eligs {
        var k :| 0 <= k < |eligs| && eligs[k] == e;
        assert rows[k] in rows;
      }
      if HasClass(rows, e) {
        var x :| x in rows && x.elig == e;
        var k :| 0 <= k < |rows| && rows[k] == x;
        assert eligs[k] == e;
      }
    }
  }

  /** The classes of `order` that some row has, in the order of `order`. */
  function ClassesAmong(order: seq<Elig>, rows: Table): (r: seq<Elig>)
    ensures forall e :: e in r <==> e in order && HasClass(rows, e)
  {
    if order == [] then []
    else
      var init := ClassesAmong(order[..|order| - 1], rows);
      var e := order[|order| - 1];
      assert forall f :: f in order <==> f in order[..|order| - 1] || f == e;
      if HasClass(rows, e) then init + [e] else init
  }

  lemma {:induction false} ClassesAmongOrdered(order: seq<Elig>, rows: Table)
    requires InClassOrder(order)
    ensures InClassOrder(ClassesAmong(order, rows))
  {
    if order != [] {
      var init := order[..|order| - 1];
      var e := order[|order| - 1];
      ClassesAmongOrdered(init, rows);
      var r0 := ClassesAmong(init, rows);
      forall i | 0 <= i < |r0| ensures Rank(r0[i]) < Rank(e) {
        assert r0[i] in init;
        var k :| 0 <= k < |init| && init[k] == r0[i];
        assert order[k] == r0[i];
      }
    }
  }

  /** In class order the last class is the highest, so two such sequences
      holding the same classes end alike. */
  lemma SameLast(a: seq<Elig>, b: seq<Elig>)
    requires InClassOrder(a) && InClassOrder(b) && a != [] && b != []
    requires forall e :: e in a <==> e in b
    ensures a[|a| - 1] == b[|b| - 1]
  {
    var x, y := a[|a| - 1], b[|b| - 1];
    assert x in a && y in b;
    LastIsHighest(a, y);
    LastIsHighest(b, x);
  }

  lemma LastIsHighest(a: seq<Elig>, e: Elig)
    requires InClassOrder(a) && e in a
    ensures Rank(e) <= Rank(a[|a| - 1])
  {
    var k :| 0 <= k < |a| && a[k] == e;
    if k < |a| - 1 {
      assert Rank(a[k]) < Rank(a[|a| - 1]);
    }
  }

  lemma DropLast(a: seq<Elig>)
    requires InClassOrder(a) && a != []
    ensures InClassOrder(a[..|a| - 1])
    ensures forall e :: e in a[..|a| - 1] <==> e in a && e != a[|a| - 1]
  {
    var a', x := a[..|a| - 1], a[|a| - 1];
    assert a == a' + [x];
    forall i | 0 <= i < |a'| ensures a'[i] != x {
      assert Rank(a[i]) < Rank(x);
    }
  }

  lemma FirstIsMember(s: seq<Elig>)
    ensures s != [] ==> s[0] in s
  {
  }

  /** Two sequences of distinct classes in class order that hold the same
      classes are the same sequence. */
  lemma {:induction false} ClassOrderUnique(a: seq<Elig>, b: seq<Elig>)
    requires InClassOrder(a) && InClassOrder(b)
    requires forall e :: e in a <==> e in b
    ensures a == b
    decreases |a| + |b|
  {
    if a == [] || b == [] {
      FirstIsMember(a);
      FirstIsMember(b);
    } else {
      var a', b' := a[..|a| - 1], b[..|b| - 1];
      SameAfterDropLast(a, b, a', b');
      ClassOrderUnique(a', b');
      assert a == a' + [a[|a| - 1]];
      assert b == b' + [b[|b| - 1]];
    }
  }

  /** Dropping the last class of both keeps them alike. */
  lemma SameAfterDropLast(a: seq<Elig>, b: seq<Elig>, a': seq<Elig>, b': seq<Elig>)
    requires InClassOrder(a) && InClassOrder(b) && a != [] && b != []
    requires forall e :: e in a <==> e in b
    requires a' == a[..|a| - 1] && b' == b[..|b| - 1]
    ensures a[|a| - 1] == b[|b| - 1]
    ensures InClassOrder(a') && InClassOrder(b')
    ensures forall e :: e in a' <==> e in b'
  {
    SameLast(a, b);
    DropLast(a);
    DropLast(b);
    forall e ensures e in a' <==> e in b' {
      assert e in a' <==> e in a && e != a[|a| - 1];
      assert e in b' <==> e in b && e != b[|b| - 1];
    }
  }

  /** The combination is `ELIGIBILITY_ORDER` with the classes the wrestler
      never placed in struck out. */
  lemma ComboIsOrderFiltered(rows: Table)
    ensures Combo(rows) == ClassesAmong(EligibilityOrder, rows)
  {
    var order := EligibilityOrder;
    assert InClassOrder(order);
    ClassesAmongOrdered(order, rows);
    forall e ensures e in order {
      assert order[Rank(e)] == e;
    }
    ClassOrderUnique(Combo(rows), ClassesAmong(order, rows));
  }

  /** No two rows share a class. */
  predicate OneRowPerClass(rows: Table) {
    forall i, j | 0 <= i < j < |rows| :: rows[i].elig != rows[j].elig
  }

  /** The combination has one class per finish exactly when no class
      holds two finishes; `build_combo_table` keeps only such wrestlers. */
  lemma ComboFull(rows: Table)
    ensures |Combo(rows)| == |rows| <==> OneRowPerClass(rows)
  {
    var eligs := EligsOf(rows);
    DedupFull(eligs);
    assert Distinct(eligs) <==> OneRowPerClass(rows);
  }

  /** One entry of `wrestler_tiers`. */
  datatype Tier = Tier(wrestler: string, nAA: nat, combo: seq<Elig>)

  function TierOf(t: Table, w: string): Tier {
    Tier(w, AACount(t, w), Combo(RowsOf(t, w)))
  }

  /** The loop building `wrestler_tiers`, one entry per wrestler of ws. */
  method BuildTiers(t: Table, ws: seq<string>) returns (tiers: seq<Tier>)
    ensures |tiers| == |ws|
    ensures forall k | 0 <= k < |ws| :: tiers[k] == TierOf(t, ws[k])
  {
    tiers := [];
    for j := 0 to |ws|
      invariant |tiers| == j
      invariant forall k | 0 <= k < j :: tiers[k] == TierOf(t, ws[k])
    {
      var rows := RowsOf(t, ws[j]);
      tiers := tiers + [Tier(ws[j], |rows|, Combo(rows))];
    }
  }

  /** `sub` in `build_combo_table(n)`: the entries with n finishes in n
      distinct classes, in order. */
  function TierMembers(tiers: seq<Tier>, n: nat): (r: seq<Tier>)
    ensures |r| <= |tiers|
    ensures forall x :: x in r <==> x in tiers && x.nAA == n && |x.combo| == n
  {
    if tiers == [] then []
    else
      var init := TierMembers(tiers[..|tiers| - 1], n);
      var x := tiers[|tiers| - 1];
      assert forall y :: y in tiers <==> y in tiers[..|tiers| - 1] || y == x;
      if x.nAA == n && |x.combo| == n then init + [x] else init
  }

  /** The test `n_aa == n and len(combo) == n`. */
  function OfSize(n: nat): Tier -> bool {
    (x: Tier) => x.nAA == n && |x.combo| == n
  }

  /** `TierMembers` is the order-keeping filter on the tier size. */
  lemma {:induction false} TierMembersIsFilter(tiers: seq<Tier>, n: nat)
    ensures TierMembers(tiers, n) == Filter(tiers, OfSize(n))
  {
    if tiers != [] {
      TierMembersIsFilter(tiers[..|tiers| - 1], n);
    }
  }

  /** A wrestler is in tier n exactly when they have n finishes, no two
      in the same class. */
  lemma InTier(t: Table, w: string, n: nat)
    ensures (var x := TierOf(t, w); x.nAA == n && |x.combo| == n)
            <==> AACount(t, w) == n && OneRowPerClass(RowsOf(t, w))
  {
    ComboFull(RowsOf(t, w));
  }

  // ---------------------------------------------------------------------
  // "Name (p-p-DNP-p)"

  /** `elig_to_place` after the loop: each class maps to the place of the
      last of its rows. */
  function LastPlaces(rows: Table): (m: map<Elig, int>)
    ensures forall e :: e in m <==> HasClass(rows, e)
  {
    if rows == [] then map[]
    else
      var init := rows[..|rows| - 1];
      var x := rows[|rows| - 1];
      assert forall e :: HasClass(rows, e) <==> HasClass(init, e) || x.elig == e by {
        assert rows == init + [x];
      }
      LastPlaces(init)[x.elig := x.place]
  }

  /** The position of the last row of class e. */
  function LastIndexOf(rows: Table, e: Elig): (i: int)
    requires HasClass(rows, e)
    ensures 0 <= i < |rows| && rows[i].elig == e
    ensures forall j | i < j < |rows| :: rows[j].elig != e
  {
    var init := rows[..|rows| - 1];
    if rows[|rows| - 1].elig == e then |rows| - 1
    else
      assert HasClass(init, e) by {
        var y :| y in rows && y.elig == e;
        assert rows == init + [rows[|rows| - 1]];
      }
      LastIndexOf(init, e)
  }

  /** The place recorded for a class is that of the class's last row:
      a later row of a class overwrites an earlier one. */
  lemma {:induction false} LastPlacesAreLast(rows: Table, e: Elig)
    requires HasClass(rows, e)
    ensures LastPlaces(rows)[e] == rows[LastIndexOf(rows, e)].place
  {
    var init := rows[..|rows| - 1];
    if rows[|rows| - 1].elig != e {
      assert HasClass(init, e) by {
        var y :| y in rows && y.elig == e;
        assert rows == init + [rows[|rows| - 1]];
      }
      LastPlacesAreLast(init, e);
    }
  }

  /** The classes shown: Fr to Sr always, SSr only when the wrestler has an
      SSr row. */
  function ShownClasses(m: map<Elig, int>): (r: seq<Elig>)
    ensures |r| == if SSr in m then 5 else 4
  {
    if SSr in m then [Fr, So, Jr, Sr, SSr] else [Fr, So, Jr, Sr]
  }

  /** `str(elig_to_place.get(e, "DNP"))`. */
  function Part(m: map<Elig, int>, e: Elig): string {
    if e in m then IntToString(m[e]) else "DNP"
  }

  function Parts(m: map<Elig, int>, order: seq<Elig>): (r: seq<string>)
    ensures |r| == |order|
    ensures forall k | 0 <= k < |order| :: r[k] == Part(m, order[k])
  {
    seq(|order|, k requires 0 <= k < |order| => Part(m, order[k]))
  }

  /** The fields of the placement text, rows taken in `_order`. */
  function PlacementParts(rows: Table): seq<string> {
    var m := LastPlaces(Chronological(rows));
    Parts(m, ShownClasses(m))
  }

  /** `wrestler_placement_string(w, rows)`. */
  function PlacementText(w: string, rows: Table): string {
    w + " (" + Join(PlacementParts(rows), "-") + ")"
  }

  /** `wrestler_placement_string`, with its loop filling `elig_to_place`. */
  method PlacementString(w: string, rows: Table) returns (s: string)
    ensures s == PlacementText(w, rows)
  {
    var m := FillPlaces(Chronological(rows));
    var order := [Fr, So, Jr, Sr];
    if SSr in m {
      order := order + [SSr];
    }
    assert order == ShownClasses(m);
    var parts := Parts(m, order);
    s := w + " (" + Join(parts, "-") + ")";
  }

  /** The loop `for _, row in w_df.iterrows(): elig_to_place[...] = ...`. */
  method FillPlaces(sorted: Table) returns (m: map<Elig, int>)
    ensures m == LastPlaces(sorted)
  {
    m := map[];
    for i := 0 to |sorted|
      invariant m == LastPlaces(sorted[..i])
    {
      assert sorted[..i + 1][..i] == sorted[..i];
      m := m[sorted[i].elig := sorted[i].place];
    }
    assert sorted[..|sorted|] == sorted;
  }

  lemma HasClassChronological(rows: Table, e: Elig)
    ensures HasClass(Chronological(rows), e) <==> HasClass(rows, e)
  {
    var c := Chronological(rows);
    if HasClass(rows, e) {
      var x :| x in rows && x.elig == e;
      assert x in multiset(rows);
      assert x in c;
    }
    if HasClass(c, e) {
      var x :| x in c && x.elig == e;
      assert x in multiset(c);
      assert x in rows;
    }
  }

  lemma IntToStringNotDNP(i: int)
    ensures IntToString(i) != "DNP"
  {
    var s := IntToString(i);
    if i >= 0 {
      assert IsDigit(s[0]);
    } else {
      assert s[0] == '-';
    }
  }

  /** The text has five fields when the wrestler has an SSr finish and
      four otherwise, and a field reads "DNP" exactly when the wrestler has
      no finish in that class. */
  lemma PlacementFields(rows: Table)
    ensures |PlacementParts(rows)| == if HasClass(rows, SSr) then 5 else 4
    ensures forall k | 0 <= k < |PlacementParts(rows)| ::
              (PlacementParts(rows)[k] == "DNP" <==> !HasClass(rows, EligibilityOrder[k]))
    ensures forall e :: HasClass(Chronological(rows), e) <==> HasClass(rows, e)
    ensures forall k | 0 <= k < |PlacementParts(rows)| && HasClass(rows, EligibilityOrder[k]) ::
              PlacementParts(rows)[k]
              == IntToString(Chronological(rows)[LastIndexOf(Chronological(rows), EligibilityOrder[k])].place)
  {
    var c := Chronological(rows);
    var m := LastPlaces(c);
    var order := ShownClasses(m);
    var parts := Parts(m, order);
    HasClassChronological(rows, SSr);
    forall e ensures HasClass(c, e) <==> HasClass(rows, e) {
      HasClassChronological(rows, e);
    }
    forall k | 0 <= k < |parts|
      ensures parts[k] == "DNP" <==> !HasClass(rows, EligibilityOrder[k])
      ensures HasClass(rows, EligibilityOrder[k]) ==> parts[k] == IntToString(c[LastIndexOf(c, EligibilityOrder[k])].place)
    {
      assert order[k] == EligibilityOrder[k];
      if order[k] in m {
        IntToStringNotDNP(m[order[k]]);
        LastPlacesAreLast(c, order[k]);
      }
    }
  }

  /** With every place positive, splitting the fields on "-" (as the page
      script does) gives back one field per shown class. */
  lemma PlacementFieldsReadBack(rows: Table)
    requires forall x | x in rows :: x.place >= 1
    ensures Split(Join(PlacementParts(rows), "-"), '-') == PlacementParts(rows)
  {
    var m := LastPlaces(Chronological(rows));
    LastPlacesPositive(rows);
    PartsWithoutDash(m);
    JoinSplit(PlacementParts(rows), '-');
  }

  lemma LastPlacesPositive(rows: Table)
    requires forall x | x in rows :: x.place >= 1
    ensures forall e | e in LastPlaces(Chronological(rows)) :: LastPlaces(Chronological(rows))[e] >= 1
  {
    var c := Chronological(rows);
    var m := LastPlaces(c);
    forall e | e in m ensures m[e] >= 1 {
      LastPlacesAreLast(c, e);
      var i := LastIndexOf(c, e);
      assert c[i] in multiset(c);
      assert c[i] in rows;
    }
  }

  lemma PartsWithoutDash(m: map<Elig, int>)
    requires forall e | e in m :: m[e] >= 1
    ensures forall i, k | 0 <= i < |Parts(m, ShownClasses(m))| && 0 <= k < |Parts(m, ShownClasses(m))[i]| ::
      Parts(m, ShownClasses(m))[i][k] != '-'
  {
    var parts := Parts(m, ShownClasses(m));
    forall i, k | 0 <= i < |parts| && 0 <= k < |parts[i]| ensures parts[i][k] != '-' {
      var e := ShownClasses(m)[i];
      if e in m {
        assert parts[i] == NatToString(m[e]);
        assert IsDigit(parts[i][k]);
      }
    }
  }
}
