/** Progression archetypes: six independent predicates over a career's
    chronological sequence of places (a lower place is better), the three
    single-appearance "Last Chance" kinds, and the tally of wrestlers per
    archetype and per number of All-American finishes. */
module Archetypes {
  import opened Results
  import opened Text
  import opened Records

  datatype Archetype =
    | ContinuedProgression
    | PlateauBreaker
    | RegressionSurvivor
    | ConsistentElite
    | EarlyPeak
    | FinishOnAWin

  /** `ARCHETYPE_NAMES`, in the order `classify_archetype` tests them. */
  const ArchetypeNames: seq<Archetype> :=
    [ContinuedProgression, PlateauBreaker, RegressionSurvivor, ConsistentElite, EarlyPeak, FinishOnAWin]

  function Ordinal(a: Archetype): (r: nat)
    ensures r < |ArchetypeNames| && ArchetypeNames[r] == a
  {
    match a
    case ContinuedProgression => 0
    case PlateauBreaker => 1
    case RegressionSurvivor => 2
    case ConsistentElite => 3
    case EarlyPeak => 4
    case FinishOnAWin => 5
  }

  // ---------------------------------------------------------------------
  // The six predicates

  /** Every place strictly better than the one before. */
  predicate Improving(p: seq<int>) {
    forall i | 0 <= i < |p| - 1 :: p[i] > p[i + 1]
  }

  /** `improved_every_year`: false for fewer than two places. */
  predicate ImprovedEveryYear(p: seq<int>) {
    |p| >= 2 && Improving(p)
  }

  /** `min(p)`. */
  function MinOf(p: seq<int>): (m: int)
    requires |p| > 0
    ensures m in p
    ensures forall k | 0 <= k < |p| :: m <= p[k]
  {
    if |p| == 1 then p[0]
    else
      var m := MinOf(p[..|p| - 1]);
      assert p[..|p| - 1][0] == p[0];
      if p[|p| - 1] < m then p[|p| - 1] else m
  }

  predicate IsContinuedProgression(p: seq<int>) {
    |p| >= 3 && Improving(p)
  }

  /** Two equal places in a row, then a better one. */
  predicate IsPlateauBreaker(p: seq<int>) {
    |p| >= 3 && exists i | 0 <= i < |p| - 2 :: p[i] == p[i + 1] && p[i + 2] < p[i]
  }

  /** After position i, some later place (from i + 2 on) is within one of
      the best place up to and including i. */
  predicate RecoversAfter(p: seq<int>, i: int)
    requires 0 <= i < |p|
  {
    exists j | i + 2 <= j < |p| :: p[j] <= MinOf(p[..i + 1]) + 1
  }

  /** A drop of three or more places, then a recovery. */
  predicate IsRegressionSurvivor(p: seq<int>) {
    |p| >= 3 && exists i | 0 <= i < |p| - 2 :: p[i + 1] - p[i] >= 3 && RecoversAfter(p, i)
  }

  /** Never a title, always in the top four. */
  predicate IsConsistentElite(p: seq<int>) {
    |p| >= 3 && (forall k | 0 <= k < |p| :: p[k] > 1) && (forall k | 0 <= k < |p| :: p[k] <= 4)
  }

  /** The first best place comes in the first half (`len // 2`), and the
      last place is at least two worse than it. */
  predicate IsEarlyPeak(p: seq<int>) {
    |p| >= 3 &&
    var best := MinOf(p);
    IndexOf(p, best) < |p| / 2 && p[|p| - 1] >= best + 2
  }

  /** Every place odd, that is every finish a won final placement match
      (Python's `p % 2 == 1`, which agrees with Dafny's `%`). */
  predicate IsFinishOnAWin(p: seq<int>) {
    |p| >= 3 && forall k | 0 <= k < |p| :: p[k] % 2 == 1
  }

  predicate Matches(a: Archetype, p: seq<int>) {
    match a
    case ContinuedProgression => IsContinuedProgression(p)
    case PlateauBreaker => IsPlateauBreaker(p)
    case RegressionSurvivor => IsRegressionSurvivor(p)
    case ConsistentElite => IsConsistentElite(p)
    case EarlyPeak => IsEarlyPeak(p)
    case FinishOnAWin => IsFinishOnAWin(p)
  }

  /** Every archetype needs at least three places. */
  lemma ShortMatchesNothing(p: seq<int>)
    requires |p| < 3
    ensures forall a :: !Matches(a, p)
  {
  }

  /** The archetypes among `names` that match p, in the order of `names`. */
  function MatchingAmong(names: seq<Archetype>, p: seq<int>): (r: seq<Archetype>)
    ensures forall a :: a in r <==> a in names && Matches(a, p)
    ensures |r| <= |names|
    ensures forall i | 0 <= i < |r| :: exists k :: 0 <= k < |names| && names[k] == r[i]
  {
    if names == [] then []
    else
      var init := MatchingAmong(names[..|names| - 1], p);
      var a := names[|names| - 1];
      assert forall b :: b in names <==> b in names[..|names| - 1] || b == a;
      if Matches(a, p) then init + [a] else init
  }

  lemma {:induction false} MatchingAmongNone(names: seq<Archetype>, p: seq<int>)
    requires forall a :: !Matches(a, p)
    ensures MatchingAmong(names, p) == []
  {
    if names != [] {
      MatchingAmongNone(names[..|names| - 1], p);
    }
  }

  /** Archetypes listed in `ARCHETYPE_NAMES` order, each at most once. */
  predicate InNameOrder(s: seq<Archetype>) {
    forall i, j | 0 <= i < j < |s| :: Ordinal(s[i]) < Ordinal(s[j])
  }

  lemma {:induction false} MatchingAmongOrdered(names: seq<Archetype>, p: seq<int>)
    requires InNameOrder(names)
    ensures InNameOrder(MatchingAmong(names, p))
  {
    if names != [] {
      var init := names[..|names| - 1];
      MatchingAmongOrdered(init, p);
      var r0 := MatchingAmong(init, p);
      var a := names[|names| - 1];
      forall i | 0 <= i < |r0| ensures Ordinal(r0[i]) < Ordinal(a) {
        var k :| 0 <= k < |init| && init[k] == r0[i];
      }
      if Matches(a, p) {
        var r := r0 + [a];
        assert MatchingAmong(names, p) == r;
        forall i, j | 0 <= i < j < |r| ensures Ordinal(r[i]) < Ordinal(r[j]) {
          if j < |r0| {
            assert r[i] == r0[i] && r[j] == r0[j];
          } else {
            assert r[i] == r0[i];
          }
        }
      }
    }
  }

  /** `classify_archetype`: total on every sequence; lists each matching
      archetype once, in `ARCHETYPE_NAMES` order, and nothing for fewer
      than three places. */
  function Classify(p: seq<int>): (r: seq<Archetype>)
    ensures forall a :: a in r <==> Matches(a, p)
    ensures InNameOrder(r)
    ensures Distinct(r)
    ensures |p| < 3 ==> r == []
  {
    var r := MatchingAmong(ArchetypeNames, p);
    MatchingAmongOrdered(ArchetypeNames, p);
    AllNamesListed();
    MatchingNeedsThree(p);
    NameOrderDistinct(r);
    r
  }

  lemma AllNamesListed()
    ensures forall a :: a in ArchetypeNames
  {
    forall a ensures a in ArchetypeNames {
      assert ArchetypeNames[Ordinal(a)] == a;
    }
  }

  lemma MatchingNeedsThree(p: seq<int>)
    ensures |p| < 3 ==> MatchingAmong(ArchetypeNames, p) == []
  {
    if |p| < 3 {
      ShortMatchesNothing(p);
      MatchingAmongNone(ArchetypeNames, p);
    }
  }

  lemma NameOrderDistinct(r: seq<Archetype>)
    requires InNameOrder(r)
    ensures Distinct(r)
  {
    forall i, j | 0 <= i < j < |r| ensures r[i] != r[j] {
      assert Ordinal(r[i]) < Ordinal(r[j]);
    }
  }

  // ---------------------------------------------------------------------
  // Independent readings of the predicates

  lemma {:induction false} ImprovingBetween(p: seq<int>, i: int, j: int)
    requires Improving(p) && 0 <= i < j < |p|
    ensures p[i] > p[j]
    decreases j - i
  {
    if j > i + 1 {
      ImprovingBetween(p, i, j - 1);
    }
  }

  /** Continued Progression is `improved_every_year` on three or more
      places, and means every place beats every later one. */
  lemma ContinuedProgressionRule(p: seq<int>)
    ensures IsContinuedProgression(p) <==> |p| >= 3 && ImprovedEveryYear(p)
    ensures IsContinuedProgression(p) <==> |p| >= 3 && forall i, j | 0 <= i < j < |p| :: p[i] > p[j]
  {
    if IsContinuedProgression(p) {
      forall i, j | 0 <= i < j < |p| ensures p[i] > p[j] {
        ImprovingBetween(p, i, j);
      }
    }
  }

  /** Early Peak without `min` and `index`: some place in the first half is
      a best place of the career, and the last place is two or more worse. */
  lemma EarlyPeakRule(p: seq<int>)
    ensures IsEarlyPeak(p) <==>
      |p| >= 3 && exists i | 0 <= i < |p| / 2 ::
        (forall k | 0 <= k < |p| :: p[i] <= p[k]) && p[|p| - 1] >= p[i] + 2
  {
    if |p| >= 3 {
      var best := MinOf(p);
      var first := IndexOf(p, best);
      if IsEarlyPeak(p) {
        assert (forall k | 0 <= k < |p| :: p[first] <= p[k]) && p[|p| - 1] >= p[first] + 2;
      }
      if exists i | 0 <= i < |p| / 2 :: (forall k | 0 <= k < |p| :: p[i] <= p[k]) && p[|p| - 1] >= p[i] + 2 {
        var i :| 0 <= i < |p| / 2 && (forall k | 0 <= k < |p| :: p[i] <= p[k]) && p[|p| - 1] >= p[i] + 2;
        assert p[i] == best;
        assert first <= i;
      }
    }
  }

  /** A drop of three or more right after position i, a best place of the
      first i + 1 at k, and a later place j (from i + 2 on) at most one
      worse than it. */
  predicate DropAndRecovery(p: seq<int>, i: int, k: int, j: int) {
    0 <= k <= i && i + 2 <= j < |p| && p[i + 1] - p[i] >= 3
    && (forall m | 0 <= m <= i :: p[k] <= p[m]) && p[j] <= p[k] + 1
  }

  lemma RegressionSurvivorWitness(p: seq<int>)
    requires IsRegressionSurvivor(p)
    ensures exists i, k, j :: DropAndRecovery(p, i, k, j)
  {
    var i :| 0 <= i < |p| - 2 && p[i + 1] - p[i] >= 3 && RecoversAfter(p, i);
    var prefix := p[..i + 1];
    var j :| i + 2 <= j < |p| && p[j] <= MinOf(prefix) + 1;
    var k := IndexOf(prefix, MinOf(prefix));
    assert forall m | 0 <= m <= i :: p[k] <= p[m] by {
      forall m | 0 <= m <= i ensures p[k] <= p[m] {
        assert prefix[m] == p[m];
      }
    }
    assert DropAndRecovery(p, i, k, j);
  }

  lemma RegressionSurvivorFromWitness(p: seq<int>, i: int, k: int, j: int)
    requires DropAndRecovery(p, i, k, j)
    ensures IsRegressionSurvivor(p)
  {
    var prefix := p[..i + 1];
    assert prefix[k] == p[k];
    var m := IndexOf(prefix, MinOf(prefix));
    assert prefix[m] == p[m];
    assert MinOf(prefix) == p[k];
    assert RecoversAfter(p, i);
  }

  /** Regression Survivor without `min`: a drop of three or more places,
      then a later place within one of the best place before the drop. */
  lemma RegressionSurvivorRule(p: seq<int>)
    ensures IsRegressionSurvivor(p) <==> exists i, k, j :: DropAndRecovery(p, i, k, j)
  {
    if IsRegressionSurvivor(p) {
      RegressionSurvivorWitness(p);
    }
    if exists i, k, j :: DropAndRecovery(p, i, k, j) {
      var i, k, j :| DropAndRecovery(p, i, k, j);
      RegressionSurvivorFromWitness(p, i, k, j);
    }
  }

  // ---------------------------------------------------------------------
  // The older progression list, ordered by year only

  function YearKey(r: Record): int {
    r.year
  }

  /** `sort_values("Year")` on a wrestler's rows. */
  function YearOrder(rows: Table): (r: Table)
    ensures multiset(r) == multiset(rows)
    ensures SortedBy(r, YearKey)
  {
    SortBy(rows, YearKey)
  }

  /** `improved_wrestlers`: those of ws, in order, whose places sorted by
      year improve every year. */
  function ImprovedWrestlers(t: Table, ws: seq<string>): (r: seq<string>)
    ensures |r| <= |ws|
    ensures forall w :: w in r <==> w in ws && ImprovedEveryYear(Places(YearOrder(RowsOf(t, w))))
  {
    if ws == [] then []
    else
      var init := ImprovedWrestlers(t, ws[..|ws| - 1]);
      var w := ws[|ws| - 1];
      assert forall v :: v in ws <==> v in ws[..|ws| - 1] || v == w;
      if ImprovedEveryYear(Places(YearOrder(RowsOf(t, w)))) then init + [w] else init
  }

  /** The test `improved_every_year(places)` for one wrestler. */
  function Improves(t: Table): string -> bool {
    (w: string) => ImprovedEveryYear(Places(YearOrder(RowsOf(t, w))))
  }

  /** The list is the order-keeping filter of ws on that test, so a
      wrestler listed once in ws is listed at most once. */
  lemma {:induction false} ImprovedWrestlersIsFilter(t: Table, ws: seq<string>)
    ensures ImprovedWrestlers(t, ws) == Filter(ws, Improves(t))
    ensures Distinct(ws) ==> Distinct(ImprovedWrestlers(t, ws))
  {
    if ws != [] {
      ImprovedWrestlersIsFilter(t, ws[..|ws| - 1]);
    }
    if Distinct(ws) {
      FilterDistinct(ws, Improves(t));
    }
  }

  /** Rows of one year all share a class. */
  predicate OneClassPerYear(rows: Table) {
    forall x, y | x in rows && y in rows && x.year == y.year :: x.elig == y.elig
  }

  /** When no year holds two classes, ordering by year alone is the
      chronological order. */
  lemma YearOrderIsChronological(rows: Table)
    requires OneClassPerYear(rows)
    ensures YearOrder(rows) == Chronological(rows)
  {
    forall x, y | x in rows && y in rows
      ensures YearKey(x) <= YearKey(y) <==> ChronoKey(x) <= ChronoKey(y)
    {
      ChronoKeyIsLexicographic(x, y);
    }
    SortBySameOrder(rows, YearKey, ChronoKey);
  }

  /** For such a career of three or more finishes, being on the list of
      wrestlers who improved every year is being a Continued Progression. */
  lemma ImprovedIsContinuedProgression(rows: Table)
    requires OneClassPerYear(rows) && |rows| >= 3
    ensures ImprovedEveryYear(Places(YearOrder(rows)))
            <==> ContinuedProgression in Classify(Places(Chronological(rows)))
  {
    YearOrderIsChronological(rows);
    ContinuedProgressionRule(Places(Chronological(rows)));
  }

  // ---------------------------------------------------------------------
  // Examples from the comments and the documentation

  lemma ProgressionExamples()
    ensures ContinuedProgression in Classify([4, 3, 2, 1])
    ensures ContinuedProgression !in Classify([4, 3, 3, 1])
    ensures PlateauBreaker in Classify([4, 3, 3, 1])
    ensures Classify([2, 1]) == []
  {
    var p := [4, 3, 3, 1];
    assert p[1] == p[2] && p[3] < p[1];
    assert !Improving(p) by { assert !(p[1] > p[2]); }
  }

  lemma RegressionExamples()
    ensures RegressionSurvivor in Classify([1, 4, 1])
  {
    var p := [1, 4, 1];
    assert p[..1] == [1];
    assert MinOf([1]) == 1;
    assert p[2] <= MinOf(p[..1]) + 1;
    assert RecoversAfter(p, 0);
  }

  lemma RegressionWithinOne()
    ensures RegressionSurvivor in Classify([1, 4, 2])
  {
    var q := [1, 4, 2];
    assert q[..1] == [1];
    assert MinOf([1]) == 1;
    assert q[2] <= MinOf(q[..1]) + 1;
    assert RecoversAfter(q, 0);
  }

  lemma NoRecoveryExample()
    ensures RegressionSurvivor !in Classify([1, 4, 3])
  {
    var p := [1, 4, 3];
    assert p[..1] == [1];
    assert MinOf([1]) == 1;
    assert !RecoversAfter(p, 0);
  }

  lemma EliteExamples()
    ensures ConsistentElite in Classify([2, 3, 4])
    ensures ConsistentElite !in Classify([1, 2, 3])
  {
    var q := [1, 2, 3];
    assert !(q[0] > 1);
  }

  lemma WinExamples()
    ensures FinishOnAWin in Classify([7, 5, 1])
    ensures FinishOnAWin !in Classify([7, 5, 2])
  {
    var r := [7, 5, 2];
    assert r[2] % 2 == 0;
  }

  /** `[5, 3, 1]` improves every year and finishes on wins; its best place
      comes last, so it is no Early Peak, and it includes a title, so it is
      no Consistent Elite. */
  lemma FiveThreeOne()
    ensures ContinuedProgression in Classify([5, 3, 1]) && FinishOnAWin in Classify([5, 3, 1])
  {
    var p := [5, 3, 1];
    assert MinOf(p) == 1;
  }

  lemma FiveThreeOneOnly()
    ensures forall a | a in Classify([5, 3, 1]) :: a == ContinuedProgression || a == FinishOnAWin
  {
    var p := [5, 3, 1];
    assert MinOf(p) == 1;
    assert IndexOf(p, 1) == 2;
    assert !IsConsistentElite(p) by { assert !(p[2] > 1); }
    assert !IsPlateauBreaker(p) by { assert p[0] != p[1]; }
    assert !IsRegressionSurvivor(p) by { assert p[1] - p[0] < 3; }
  }

  // ---------------------------------------------------------------------
  // Last Chance: careers with a single All-American finish

  datatype LastChance = SeniorLastChance | CovidLastChance | ChampionshipLastChance

  const LastChanceNames: seq<LastChance> := [SeniorLastChance, CovidLastChance, ChampionshipLastChance]

  function LastChanceIndex(lc: LastChance): (r: nat)
    ensures r < |LastChanceNames| && LastChanceNames[r] == lc
  {
    match lc
    case SeniorLastChance => 0
    case CovidLastChance => 1
    case ChampionshipLastChance => 2
  }

  /** The Last Chance kinds are judged only for a single-row career. */
  predicate IsLastChance(lc: LastChance, rows: Table) {
    |rows| == 1 &&
    var r := rows[0];
    match lc
    case SeniorLastChance => r.elig in {Sr, SSr}
    case CovidLastChance => r.elig == SSr && r.year >= 2021
    case ChampionshipLastChance => r.place == 1 && r.elig in {Sr, SSr}
  }

  /** Both narrower kinds are Senior Last Chances. */
  lemma LastChanceImpliesSenior(rows: Table)
    ensures IsLastChance(CovidLastChance, rows) ==> IsLastChance(SeniorLastChance, rows)
    ensures IsLastChance(ChampionshipLastChance, rows) ==> IsLastChance(SeniorLastChance, rows)
    ensures |rows| != 1 ==> forall lc :: !IsLastChance(lc, rows)
  {
  }

  /** A super senior who wins the title in 2022 is all three kinds; a
      senior champion of 2019 is no COVID Last Chance. */
  lemma LastChanceExamples(w: string, school: string, weight: int, delta: int)
    ensures var r := Record(w, school, 2022, weight, 1, None, SSr, delta);
            forall lc :: IsLastChance(lc, [r])
    ensures var r := Record(w, school, 2019, weight, 1, None, Sr, delta);
            IsLastChance(ChampionshipLastChance, [r]) && !IsLastChance(CovidLastChance, [r])
  {
  }

  // ---------------------------------------------------------------------
  // Tally by number of All-American finishes

  /** `AA_BUCKETS`, the buckets by number of finishes. */
  const AABuckets: set<int> := {3, 4, 5}

  /** `min(n_aa, 5)`: the bucket a career of n finishes is counted in. */
  function BucketKey(n: nat): nat {
    if n < 5 then n else 5
  }

  /** The buckets are keyed by the text `str(min(n_aa, 5))`; the three
      bucket keys are "3", "4" and "5", and a career has one of them
      exactly when it has three or more finishes. */
  lemma BucketKeyValues(n: nat)
    ensures NatToString(BucketKey(n)) == [DigitChar(BucketKey(n))]
    ensures n >= 5 ==> NatToString(BucketKey(n)) == "5"
    ensures n == 4 ==> NatToString(BucketKey(n)) == "4"
    ensures n == 3 ==> NatToString(BucketKey(n)) == "3"
    ensures BucketKey(n) in AABuckets <==> n >= 3
  {
  }

  function PlacesOf(c: Career): seq<int> {
    Places(c.rows)
  }

  /** The wrestlers appended to `archetype_wrestlers[a][b]`, in order. */
  function ArchetypeMembers(cs: seq<Career>, a: Archetype, b: nat): seq<string> {
    if cs == [] then []
    else
      var c := cs[|cs| - 1];
      ArchetypeMembers(cs[..|cs| - 1], a, b)
      + (if a in Classify(PlacesOf(c)) && BucketKey(|c.rows|) == b then [c.wrestler] else [])
  }

  /** The wrestlers matching archetype a, whatever their bucket. */
  function MatchingWrestlers(cs: seq<Career>, a: Archetype): seq<string> {
    if cs == [] then []
    else
      var c := cs[|cs| - 1];
      MatchingWrestlers(cs[..|cs| - 1], a) + (if a in Classify(PlacesOf(c)) then [c.wrestler] else [])
  }

  /** The wrestlers appended to `last_chance_wrestlers[lc]`, in order. */
  function LastChanceMembers(cs: seq<Career>, lc: LastChance): seq<string> {
    if cs == [] then []
    else
      var c := cs[|cs| - 1];
      LastChanceMembers(cs[..|cs| - 1], lc) + (if IsLastChance(lc, c.rows) then [c.wrestler] else [])
  }

  /** No matching wrestler is lost: every archetype needs three or more
      finishes, so each lands in exactly one of the buckets 3, 4 and 5, and
      the `total` (the sum of the buckets) counts every match. */
  lemma {:induction false} TotalIsBucketSum(cs: seq<Career>, a: Archetype)
    ensures |ArchetypeMembers(cs, a, 3)| + |ArchetypeMembers(cs, a, 4)| + |ArchetypeMembers(cs, a, 5)|
            == |MatchingWrestlers(cs, a)|
  {
    if cs != [] {
      var c := cs[|cs| - 1];
      TotalIsBucketSum(cs[..|cs| - 1], a);
      BucketKeyValues(|c.rows|);

    }
  }

  lemma {:induction false} AbsentWrestler(cs: seq<Career>, a: Archetype, b: nat, w: string)
    requires forall c | c in cs :: c.wrestler != w
    ensures w !in ArchetypeMembers(cs, a, b)
  {
    if cs != [] {
      AbsentWrestler(cs[..|cs| - 1], a, b, w);
    }
  }

  /** A wrestler is counted in bucket `min(n, 5)` only: for careers of
      distinct wrestlers, nobody appears in two buckets of one archetype. */
  lemma {:induction false} OneBucketEach(cs: seq<Career>, a: Archetype, w: string, b1: nat, b2: nat)
    requires forall i, j | 0 <= i < j < |cs| :: cs[i].wrestler != cs[j].wrestler
    requires w in ArchetypeMembers(cs, a, b1) && w in ArchetypeMembers(cs, a, b2)
    ensures b1 == b2
  {
    var init, c := cs[..|cs| - 1], cs[|cs| - 1];
    if w == c.wrestler {
      assert forall d | d in init :: d.wrestler != w by {
        forall d | d in init ensures d.wrestler != w {
          var k :| 0 <= k < |init| && init[k] == d;
          assert cs[k] == d;
        }
      }
      AbsentWrestler(init, a, b1, w);
      AbsentWrestler(init, a, b2, w);
    } else {
      OneBucketEach(init, a, w, b1, b2);
    }
  }

  /** `archetype_counts` and the name lists built from it. */
  datatype ArchetypeTally = ArchetypeTally(
    byAA: map<Archetype, map<int, nat>>,
    total: map<Archetype, nat>,
    wrestlers: map<Archetype, map<int, seq<string>>>,
    lastChance: map<LastChance, nat>,
    lastChanceWrestlers: map<LastChance, seq<string>>)

  /** Every archetype has an entry for each of the buckets 3, 4 and 5. */
  predicate Shaped<V>(m: map<Archetype, map<int, V>>) {
    forall a, b | b in AABuckets :: a in m && b in m[a]
  }

  /** `archetype_wrestlers` holds, per archetype and bucket, the wrestlers
      of the careers in cs that match. */
  predicate NamesHold(cs: seq<Career>, names: map<Archetype, map<int, seq<string>>>) {
    Shaped(names)
    && forall a, b | b in AABuckets :: names[a][b] == ArchetypeMembers(cs, a, b)
  }

  /** `archetype_counts[a]["by_aa"]` holds the sizes of those lists. */
  predicate CountsHold(cs: seq<Career>, byAA: map<Archetype, map<int, nat>>) {
    Shaped(byAA)
    && forall a, b | b in AABuckets :: byAA[a][b] == |ArchetypeMembers(cs, a, b)|
  }

  predicate LastChanceHolds(cs: seq<Career>, counts: map<LastChance, nat>, names: map<LastChance, seq<string>>) {
    forall lc :: lc in counts && lc in names && names[lc] == LastChanceMembers(cs, lc) && counts[lc] == |names[lc]|
  }

  function AsSet(s: seq<Archetype>): set<Archetype> {
    set a | a in s
  }

  /** The name lists after the archetypes in `counted`, among those a
      career in bucket `key` matches, have had its wrestler `w` appended
      to the lists `prev`. */
  predicate NamesPartly(prev: map<Archetype, map<int, seq<string>>>, key: int, w: string, counted: set<Archetype>,
                        names: map<Archetype, map<int, seq<string>>>)
  {
    Shaped(prev) && Shaped(names)
    && forall a, b | b in AABuckets ::
         names[a][b] == (if a in counted && key == b then prev[a][b] + [w] else prev[a][b])
  }

  /** The same for the counters. */
  predicate CountsPartly(prev: map<Archetype, map<int, nat>>, key: int, counted: set<Archetype>,
                         byAA: map<Archetype, map<int, nat>>)
  {
    Shaped(prev) && Shaped(byAA)
    && forall a, b | b in AABuckets ::
         byAA[a][b] == prev[a][b] + (if a in counted && key == b then 1 else 0)
  }

  lemma MembersAppend(done: seq<Career>, c: Career, a: Archetype, b: nat)
    ensures ArchetypeMembers(done + [c], a, b)
            == ArchetypeMembers(done, a, b)
               + (if a in Classify(PlacesOf(c)) && BucketKey(|c.rows|) == b then [c.wrestler] else [])
  {
    assert (done + [c])[..|done|] == done;
  }

  lemma FinishNames(done: seq<Career>, c: Career, prev: map<Archetype, map<int, seq<string>>>,
                    names: map<Archetype, map<int, seq<string>>>)
    requires NamesHold(done, prev)
    requires NamesPartly(prev, BucketKey(|c.rows|), c.wrestler, AsSet(Classify(PlacesOf(c))), names)
    ensures NamesHold(done + [c], names)
  {
    var found := Classify(PlacesOf(c));
    var key := BucketKey(|c.rows|);
    forall a, b | b in AABuckets ensures names[a][b] == ArchetypeMembers(done + [c], a, b) {
      MembersAppend(done, c, a, b);
      var extra := if a in found && key == b then [c.wrestler] else [];
      assert a in AsSet(found) <==> a in found;
      assert names[a][b] == prev[a][b] + extra;
      assert prev[a][b] == ArchetypeMembers(done, a, b);
    }
  }

  lemma FinishCounts(done: seq<Career>, c: Career, prev: map<Archetype, map<int, nat>>,
                     byAA: map<Archetype, map<int, nat>>)
    requires CountsHold(done, prev)
    requires CountsPartly(prev, BucketKey(|c.rows|), AsSet(Classify(PlacesOf(c))), byAA)
    ensures CountsHold(done + [c], byAA)
  {
    var found := Classify(PlacesOf(c));
    var key := BucketKey(|c.rows|);
    forall a, b | b in AABuckets ensures byAA[a][b] == |ArchetypeMembers(done + [c], a, b)| {
      MembersAppend(done, c, a, b);
      var extra := if a in found && key == b then 1 else 0;
      assert a in AsSet(found) <==> a in found;
      assert byAA[a][b] == prev[a][b] + extra;
      assert prev[a][b] == |ArchetypeMembers(done, a, b)|;
    }
  }

  lemma CountName(prev: map<Archetype, map<int, seq<string>>>, key: int, w: string, counted: set<Archetype>,
                  name: Archetype, names: map<Archetype, map<int, seq<string>>>)
    requires NamesPartly(prev, key, w, counted, names)
    requires name !in counted && key in AABuckets
    ensures NamesPartly(prev, key, w, counted + {name}, names[name := names[name][key := names[name][key] + [w]]])
  {
  }

  lemma CountNumber(prev: map<Archetype, map<int, nat>>, key: int, counted: set<Archetype>, name: Archetype,
                    byAA: map<Archetype, map<int, nat>>)
    requires CountsPartly(prev, key, counted, byAA)
    requires name !in counted && key in AABuckets
    ensures CountsPartly(prev, key, counted + {name}, byAA[name := byAA[name][key := byAA[name][key] + 1]])
  {
    var row := byAA[name][key := byAA[name][key] + 1];
    var next := byAA[name := row];
    forall a, b | b in AABuckets
      ensures a in next && b in next[a]
      ensures next[a][b] == prev[a][b] + (if a in counted + {name} && key == b then 1 else 0)
    {
      if a != name {
        assert next[a][b] == byAA[a][b];
      } else if b != key {
        assert next[a][b] == byAA[a][b];
      } else {
        assert next[a][b] == byAA[a][b] + 1;
      }
    }
  }

  lemma StartCounting(done: seq<Career>, key: int, w: string,
                      byAA: map<Archetype, map<int, nat>>, names: map<Archetype, map<int, seq<string>>>)
    requires CountsHold(done, byAA) && NamesHold(done, names)
    ensures CountsPartly(byAA, key, {}, byAA) && NamesPartly(names, key, w, {}, names)
  {
  }

  /** One career's contribution to the archetype buckets: the inner loop
      over `classify_archetype(places)`. */
  method CountArchetypes(c: Career, byAA: map<Archetype, map<int, nat>>,
                         names: map<Archetype, map<int, seq<string>>>, ghost done: seq<Career>)
    returns (byAA': map<Archetype, map<int, nat>>, names': map<Archetype, map<int, seq<string>>>)
    requires CountsHold(done, byAA) && NamesHold(done, names)
    ensures CountsHold(done + [c], byAA') && NamesHold(done + [c], names')
  {
    byAA', names' := byAA, names;
    var places := PlacesOf(c);
    var key := BucketKey(|places|);
    var w := c.wrestler;
    var found := Classify(places);
    assert AsSet(found[..0]) == {};
    StartCounting(done, key, w, byAA, names);
    for j := 0 to |found|
      invariant CountsPartly(byAA, key, AsSet(found[..j]), byAA')
      invariant NamesPartly(names, key, w, AsSet(found[..j]), names')
    {
      var name := found[j];
      assert found[..j + 1] == found[..j] + [name];
      assert AsSet(found[..j + 1]) == AsSet(found[..j]) + {name};
      if key in byAA'[name] {
        CountNumber(byAA, key, AsSet(found[..j]), name, byAA');
        CountName(names, key, w, AsSet(found[..j]), name, names');
        byAA' := byAA'[name := byAA'[name][key := byAA'[name][key] + 1]];
        names' := names'[name := names'[name][key := names'[name][key] + [w]]];
      } else {
        // Every archetype needs three finishes, so the bucket always exists.
        assert false;
      }
    }
    assert found[..|found|] == found;
    FinishCounts(done, c, byAA, byAA');
    FinishNames(done, c, names, names');
  }

  /** One career's contribution to the Last Chance lists. */
  method CountLastChance(c: Career, counts: map<LastChance, nat>, names: map<LastChance, seq<string>>,
                         ghost done: seq<Career>)
    returns (counts': map<LastChance, nat>, names': map<LastChance, seq<string>>)
    requires LastChanceHolds(done, counts, names)
    ensures LastChanceHolds(done + [c], counts', names')
  {
    counts', names' := counts, names;
    if |c.rows| == 1 {
      var elig, year, place := c.rows[0].elig, c.rows[0].year, c.rows[0].place;
      if elig in {Sr, SSr} {
        counts' := counts'[SeniorLastChance := counts'[SeniorLastChance] + 1];
        names' := names'[SeniorLastChance := names'[SeniorLastChance] + [c.wrestler]];
      }
      if elig == SSr && year >= 2021 {
        counts' := counts'[CovidLastChance := counts'[CovidLastChance] + 1];
        names' := names'[CovidLastChance := names'[CovidLastChance] + [c.wrestler]];
      }
      if place == 1 && elig in {Sr, SSr} {
        counts' := counts'[ChampionshipLastChance := counts'[ChampionshipLastChance] + 1];
        names' := names'[ChampionshipLastChance := names'[ChampionshipLastChance] + [c.wrestler]];
      }
    }
    assert (done + [c])[..|done|] == done;
  }

  /** `make_by_aa()` for every archetype. */
  function NoCounts(): (m: map<Archetype, map<int, nat>>)
    ensures forall a :: a in m && m[a].Keys == AABuckets && forall b | b in AABuckets :: m[a][b] == 0
  {
    var empty := map[3 := 0, 4 := 0, 5 := 0];
    var m := map[ContinuedProgression := empty, PlateauBreaker := empty, RegressionSurvivor := empty,
                 ConsistentElite := empty, EarlyPeak := empty, FinishOnAWin := empty];
    assert forall a :: a in m && m[a] == empty by {
      forall a ensures a in m && m[a] == empty {
        assert ArchetypeNames[Ordinal(a)] == a;
      }
    }
    m
  }

  function NoNames(): (m: map<Archetype, map<int, seq<string>>>)
    ensures forall a :: a in m && m[a].Keys == AABuckets && forall b | b in AABuckets :: m[a][b] == []
  {
    var empty := map[3 := [], 4 := [], 5 := []];
    var m := map[ContinuedProgression := empty, PlateauBreaker := empty, RegressionSurvivor := empty,
                 ConsistentElite := empty, EarlyPeak := empty, FinishOnAWin := empty];
    assert forall a :: a in m && m[a] == empty by {
      forall a ensures a in m && m[a] == empty {
        assert ArchetypeNames[Ordinal(a)] == a;
      }
    }
    m
  }

  function NoLastChanceCounts(): (m: map<LastChance, nat>)
    ensures forall lc :: lc in m && m[lc] == 0
  {
    var m := map[SeniorLastChance := 0, CovidLastChance := 0, ChampionshipLastChance := 0];
    assert forall lc :: lc in m && m[lc] == 0 by {
      forall lc ensures lc in m && m[lc] == 0 {
        assert LastChanceNames[LastChanceIndex(lc)] == lc;
      }
    }
    m
  }

  function NoLastChanceNames(): (m: map<LastChance, seq<string>>)
    ensures forall lc :: lc in m && m[lc] == []
  {
    var m := map[SeniorLastChance := [], CovidLastChance := [], ChampionshipLastChance := []];
    assert forall lc :: lc in m && m[lc] == [] by {
      forall lc ensures lc in m && m[lc] == [] {
        assert LastChanceNames[LastChanceIndex(lc)] == lc;
      }
    }
    m
  }

  /** The per-wrestler loop over the careers of the filtered table: every
      archetype a career matches is counted in the career's bucket when
      that bucket is one of 3, 4 and 5, and a single-finish career is
      counted under each Last Chance kind it fits; then each archetype's
      total is the sum of its buckets. */
  method TallyArchetypes(cs: seq<Career>) returns (r: ArchetypeTally)
    ensures forall a, b | b in AABuckets ::
              a in r.wrestlers && b in r.wrestlers[a] && a in r.byAA && b in r.byAA[a]
              && r.wrestlers[a][b] == ArchetypeMembers(cs, a, b)
              && r.byAA[a][b] == |ArchetypeMembers(cs, a, b)|
    ensures forall a :: a in r.total && r.total[a] == |MatchingWrestlers(cs, a)|
    ensures forall lc :: lc in r.lastChance && lc in r.lastChanceWrestlers
              && r.lastChanceWrestlers[lc] == LastChanceMembers(cs, lc)
              && r.lastChance[lc] == |LastChanceMembers(cs, lc)|
  {
    var byAA, names, lcCount, lcNames := TallyCareers(cs);
    var total := SumBuckets(cs, byAA);
    r := ArchetypeTally(byAA, total, names, lcCount, lcNames);
  }

  /** The loop over the careers, filling the bucket lists and counts and
      the Last Chance lists and counts. */
  method TallyCareers(cs: seq<Career>)
      returns (byAA: map<Archetype, map<int, nat>>, names: map<Archetype, map<int, seq<string>>>,
               lcCount: map<LastChance, nat>, lcNames: map<LastChance, seq<string>>)
    ensures CountsHold(cs, byAA) && NamesHold(cs, names)
    ensures LastChanceHolds(cs, lcCount, lcNames)
  {
    byAA := NoCounts();
    names := NoNames();
    lcCount := NoLastChanceCounts();
    lcNames := NoLastChanceNames();
    for i := 0 to |cs|
      invariant CountsHold(cs[..i], byAA) && NamesHold(cs[..i], names)
      invariant LastChanceHolds(cs[..i], lcCount, lcNames)
    {
      assert cs[..i + 1] == cs[..i] + [cs[i]];
      byAA, names := CountArchetypes(cs[i], byAA, names, cs[..i]);
      lcCount, lcNames := CountLastChance(cs[i], lcCount, lcNames, cs[..i]);
    }
    assert cs[..|cs|] == cs;
  }

  /** The loop setting each archetype's total to the sum of its three
      buckets. */
  method SumBuckets(cs: seq<Career>, byAA: map<Archetype, map<int, nat>>) returns (total: map<Archetype, nat>)
    requires CountsHold(cs, byAA)
    ensures forall a :: a in total && total[a] == |MatchingWrestlers(cs, a)|
  {
    total := map[];
    for j := 0 to |ArchetypeNames|
      invariant forall k | 0 <= k < j :: ArchetypeNames[k] in total
                  && total[ArchetypeNames[k]] == |MatchingWrestlers(cs, ArchetypeNames[k])|
    {
      var a := ArchetypeNames[j];
      TotalIsBucketSum(cs, a);
      total := total[a := byAA[a][3] + byAA[a][4] + byAA[a][5]];
    }
    forall a ensures a in total && total[a] == |MatchingWrestlers(cs, a)| {
      assert ArchetypeNames[Ordinal(a)] == a;
    }
  }
}
