/** Bracket rules: a bracket is one (year, weight) group of the table.
    Seed parsing, "chalk" place pairs whose seeds came true, the count of
    finishers placing exactly at their seed, the seed-placement delta
    sums per year and per bracket, and the brackets with the most
    All-Americans of each class. */
module Brackets {
  import opened Results
  import opened Text
  import opened Records

  // ---------------------------------------------------------------------
  // Seeds

  /** `convert_seed_to_int`: an empty cell or "US" (unseeded, in any case,
      surrounded by any whitespace) is no seed, and so is text `int()`
      rejects. */
  function SeedToInt(seed: Option<string>): Option<int> {
    if seed.None? || Upper(Strip(seed.value)) == "US" then None
    else ParseInt(seed.value)
  }

  /** The seed as `count_exact_matches` reads it: stripped, compared with
      "US" case-sensitively, then given to `int()`. */
  function ExactSeed(seed: Option<string>): Option<int> {
    if seed.None? then None
    else
      var s := Strip(seed.value);
      if s == "US" then None else ParseInt(s)
  }

  lemma UpperUSNotInt(t: string)
    requires Upper(t) == "US"
    ensures ParseSigned(t) == None
  {
    assert |t| == 2;
    assert ToUpper(t[0]) == 'U';
    assert !IsDigit(t[0]) && t[0] != '-' && t[0] != '+';
  }

  /** The two readings agree on every cell: the case-insensitive "US" test
      of `convert_seed_to_int` only adds cases like "us" that `int()`
      rejects anyway. */
  lemma ExactSeedAgrees(seed: Option<string>)
    ensures ExactSeed(seed) == SeedToInt(seed)
  {
    if seed.Some? {
      var s := Strip(seed.value);
      StripIdempotent(seed.value);
      if Upper(s) == "US" {
        UpperUSNotInt(s);
      }
    }
  }

  lemma UpperOfInt(i: int)
    ensures Upper(Strip(IntToString(i))) != "US"
  {
    var s := IntToString(i);
    StripUnpadded(s);
    if i >= 0 {
      assert IsDigit(s[0]);
    } else {
      assert s[0] == '-';
    }
  }

  /** A seed written as `str(n)` reads back as n. */
  lemma SeedRoundTrip(i: int)
    ensures SeedToInt(Some(IntToString(i))) == Some(i)
  {
    UpperOfInt(i);
    ParseIntRoundTrip(i);
  }

  lemma SeedExamples()
    ensures SeedToInt(None) == None
    ensures SeedToInt(Some("US")) == None
    ensures SeedToInt(Some(" us")) == None
  {
    assert Strip(" us") == "us" by {
      assert " us"[1..] == "us";
    }
  }

  lemma SeedNumberExamples()
    ensures SeedToInt(Some("3")) == Some(3)
    ensures SeedToInt(Some("x")) == None
  {
    assert Strip("3") == "3";
    assert DigitsValue("3") == 3 by {
      assert "3"[..0] == [];
    }
  }

  // ---------------------------------------------------------------------
  // Brackets and their order

  /** A (year, weight) group. */
  datatype Bracket = Bracket(year: int, weight: int)

  function BracketOf(x: Record): Bracket {
    Bracket(x.year, x.weight)
  }

  function BracketYear(b: Bracket): int {
    b.year
  }

  function BracketWeight(b: Bracket): int {
    b.weight
  }

  function BracketsOfRows(t: Table): (r: seq<Bracket>)
    ensures |r| == |t|
    ensures forall k | 0 <= k < |t| :: r[k] == BracketOf(t[k])
  {
    if t == [] then [] else BracketsOfRows(t[..|t| - 1]) + [BracketOf(t[|t| - 1])]
  }

  /** b comes before c in (year, weight) order. */
  predicate Before(b: Bracket, c: Bracket) {
    b.year < c.year || (b.year == c.year && b.weight < c.weight)
  }

  /** The groups of `groupby(["Year", "Weight"])`, in the order it visits
      them: the distinct brackets of the table sorted by weight, then
      (stably) by year. */
  function BracketKeys(t: Table): (r: seq<Bracket>)
    ensures |r| <= |t|
  {
    SortBy(SortBy(Dedup(BracketsOfRows(t)), BracketWeight), BracketYear)
  }

  /** Every bracket of the table is visited, and nothing else. */
  lemma BracketKeysMembers(t: Table)
    ensures forall b :: b in BracketKeys(t) <==> exists x :: x in t && BracketOf(x) == b
  {
    var all := BracketsOfRows(t);
    var u := Dedup(all);
    var r := BracketKeys(t);
    forall b ensures b in r <==> exists x :: x in t && BracketOf(x) == b {
      assert b in r <==> b in multiset(r);
      assert b in u <==> b in multiset(u);
      if b in all {
        var k :| 0 <= k < |all| && all[k] == b;
        assert t[k] in t;
      }
      if exists x :: x in t && BracketOf(x) == b {
        var x :| x in t && BracketOf(x) == b;
        var k :| 0 <= k < |t| && t[k] == x;
        assert all[k] == b;
      }
    }
  }

  /** The brackets are visited in strictly increasing (year, weight)
      order, so each one once. */
  lemma BracketKeysOrdered(t: Table)
    ensures forall i, j | 0 <= i < j < |BracketKeys(t)| :: Before(BracketKeys(t)[i], BracketKeys(t)[j])
    ensures Distinct(BracketKeys(t))
  {
    var r := BracketKeys(t);
    BracketKeysDistinct(t);
    forall i, j | 0 <= i < j < |r| ensures Before(r[i], r[j]) {
      BracketKeysPair(t, i, j);
    }
  }

  lemma BracketKeysDistinct(t: Table)
    ensures Distinct(BracketKeys(t))
  {
    var u := Dedup(BracketsOfRows(t));
    DistinctPermutation(u, BracketKeys(t));
  }

  lemma BracketKeysPair(t: Table, i: int, j: int)
    requires 0 <= i < j < |BracketKeys(t)|
    ensures Before(BracketKeys(t)[i], BracketKeys(t)[j])
  {
    var u := Dedup(BracketsOfRows(t));
    var r := BracketKeys(t);
    BracketKeysDistinct(t);
    SortTwice(u, BracketYear, BracketWeight, i, j);
    assert r[i] != r[j];
  }

  /** `df[(Year == y) & (Weight == w)]`: a bracket's rows, in table order. */
  function BracketRows(t: Table, b: Bracket): (r: Table)
    ensures |r| <= |t|
    ensures forall x :: x in r <==> x in t && BracketOf(x) == b
  {
    if t == [] then []
    else
      var init := BracketRows(t[..|t| - 1], b);
      var x := t[|t| - 1];
      assert forall y :: y in t <==> y in t[..|t| - 1] || y == x;
      if BracketOf(x) == b then init + [x] else init
  }

  /** The test `(Year == y) & (Weight == w)`. */
  function InBracket(b: Bracket): Record -> bool {
    (x: Record) => BracketOf(x) == b
  }

  /** `BracketRows` is the order-keeping filter on the bracket. */
  lemma {:induction false} BracketRowsIsFilter(t: Table, b: Bracket)
    ensures BracketRows(t, b) == Filter(t, InBracket(b))
  {
    if t != [] {
      BracketRowsIsFilter(t[..|t| - 1], b);
    }
  }

  // ---------------------------------------------------------------------
  // Chalk place pairs

  function PlaceKey(x: Record): int {
    x.place
  }

  /** The rows with place k or k + 1. */
  function InPair(rows: Table, k: int): (r: Table)
    ensures |r| <= |rows|
    ensures forall x :: x in r <==> x in rows && (x.place == k || x.place == k + 1)
  {
    if rows == [] then []
    else
      var init := InPair(rows[..|rows| - 1], k);
      var x := rows[|rows| - 1];
      assert forall y :: y in rows <==> y in rows[..|rows| - 1] || y == x;
      if x.place == k || x.place == k + 1 then init + [x] else init
  }

  /** The test `Place.isin([k, k + 1])`. */
  function PlacedIn(k: int): Record -> bool {
    (x: Record) => x.place == k || x.place == k + 1
  }

  /** `InPair` is the order-keeping filter on the two places. */
  lemma {:induction false} InPairIsFilter(rows: Table, k: int)
    ensures InPair(rows, k) == Filter(rows, PlacedIn(k))
  {
    if rows != [] {
      InPairIsFilter(rows[..|rows| - 1], k);
    }
  }

  /** `group[group["Place"].isin([k, k + 1])].sort_values("Place")`. */
  function PairRows(rows: Table, k: int): Table {
    SortBy(InPair(rows, k), PlaceKey)
  }

  /** The pair (k, k + 1) is chalk: exactly two rows hold those places, and
      in place order their seeds are k and k + 1 and their places k and
      k + 1. */
  predicate PairChalk(rows: Table, k: int) {
    var p := PairRows(rows, k);
    |p| == 2 && SeededAt(p[0], k) && SeededAt(p[1], k + 1)
  }

  /** A row placed at p and seeded at p. */
  predicate SeededAt(x: Record, p: int) {
    x.place == p && SeedToInt(x.seed) == Some(p)
  }

  lemma SortedPair(s: seq<Record>, x: Record, y: Record)
    requires |s| == 2 && multiset(s) == multiset{x, y} && SortedBy(s, PlaceKey) && x.place < y.place
    ensures s == [x, y]
  {
    assert s == [s[0], s[1]];
    assert multiset(s) == multiset{s[0], s[1]};
    assert PlaceKey(s[0]) <= PlaceKey(s[1]);
  }

  lemma PairChalkSound(rows: Table, k: int)
    requires PairChalk(rows, k)
    ensures |InPair(rows, k)| == 2
    ensures exists x :: x in rows && SeededAt(x, k)
    ensures exists y :: y in rows && SeededAt(y, k + 1)
  {
    var q := InPair(rows, k);
    var p := PairRows(rows, k);
    assert multiset(p) == multiset(q);
    assert p[0] in multiset(p) && p[1] in multiset(p);
    assert p[0] in q && p[1] in q;
  }

  lemma TwoMembers(q: seq<Record>, x: Record, y: Record)
    requires |q| == 2 && x in q && y in q && x != y
    ensures multiset(q) == multiset{x, y}
  {
    assert q == [q[0], q[1]];
    assert multiset(q) == multiset{q[0], q[1]};
  }

  lemma PairChalkComplete(rows: Table, k: int, x: Record, y: Record)
    requires |InPair(rows, k)| == 2
    requires x in rows && SeededAt(x, k) && y in rows && SeededAt(y, k + 1)
    ensures PairChalk(rows, k)
  {
    var q := InPair(rows, k);
    assert x in q && y in q;
    TwoMembers(q, x, y);
    SortedPair(PairRows(rows, k), x, y);
  }

  /** The pair rule without sorting: two rows in places k and k + 1, one
      each, and each seeded at its place. */
  lemma PairChalkRule(rows: Table, k: int)
    ensures PairChalk(rows, k) <==>
      |InPair(rows, k)| == 2
      && (exists x :: x in rows && SeededAt(x, k))
      && (exists y :: y in rows && SeededAt(y, k + 1))
  {
    if PairChalk(rows, k) {
      PairChalkSound(rows, k);
    }
    if |InPair(rows, k)| == 2 && (exists x :: x in rows && SeededAt(x, k)) && (exists y :: y in rows && SeededAt(y, k + 1)) {
      var x :| x in rows && SeededAt(x, k);
      var y :| y in rows && SeededAt(y, k + 1);
      PairChalkComplete(rows, k, x, y);
    }
  }

  lemma InPairFinal(a: Record, b: Record)
    requires a.place == 1 && b.place == 2
    ensures InPair([a, b], 1) == [a, b]
  {
    assert [a, b][..1] == [a];
    assert [a][..0] == [];
  }

  /** Seeds swapped between the finalists are not chalk. */
  lemma SwappedNotChalk(a: Record, b: Record)
    requires a.place == 1 && b.place == 2
    requires SeedToInt(a.seed) == Some(2) && SeedToInt(b.seed) == Some(1)
    ensures !PairChalk([a, b], 1)
  {
    PairChalkRule([a, b], 1);
    forall x | x in [a, b] ensures !SeededAt(x, 1) {
      assert x == a || x == b;
    }
  }

  /** An unseeded finalist is never chalk. */
  lemma UnseededNotChalk(a: Record, b: Record)
    requires a.place == 1 && b.place == 2
    requires SeedToInt(a.seed) == None
    ensures !PairChalk([a, b], 1)
  {
    PairChalkRule([a, b], 1);
    assert forall x | x in [a, b] :: x == a || x == b;
  }

  /** The finalists seeded first and second, placing first and second,
      are chalk. */
  lemma SeededFinalIsChalk(a: Record, b: Record)
    requires a.place == 1 && b.place == 2
    requires SeedToInt(a.seed) == Some(1) && SeedToInt(b.seed) == Some(2)
    ensures PairChalk([a, b], 1)
  {
    InPairFinal(a, b);
    PairChalkComplete([a, b], 1, a, b);
  }

  /** One entry of `chalk_results[...]`. */
  datatype ChalkEntry = ChalkEntry(
    year: int, weight: int, wrestler1: string, wrestler2: string,
    seed1: int, seed2: int, place1: int, place2: int)

  function ChalkEntryOf(b: Bracket, p: Table, k: int): ChalkEntry
    requires |p| == 2
  {
    ChalkEntry(b.year, b.weight, p[0].wrestler, p[1].wrestler, k, k + 1, k, k + 1)
  }

  /** The entry bracket b adds for pair (k, k + 1), if the pair is chalk. */
  function BracketChalk(t: Table, b: Bracket, k: int): (r: seq<ChalkEntry>)
    ensures |r| <= 1
    ensures r != [] <==> PairChalk(BracketRows(t, b), k)
  {
    var rows := BracketRows(t, b);
    if PairChalk(rows, k) then [ChalkEntryOf(b, PairRows(rows, k), k)] else []
  }

  /** The chalk entries for pair (k, k + 1) over the brackets `keys`, in order. */
  function ChalkList(t: Table, keys: seq<Bracket>, k: int): (r: seq<ChalkEntry>)
    ensures |r| <= |keys|
  {
    if keys == [] then []
    else ChalkList(t, keys[..|keys| - 1], k) + BracketChalk(t, keys[|keys| - 1], k)
  }

  /** Every chalk entry names the bracket it came from, its two wrestlers,
      and seeds equal to places. */
  lemma {:induction false} ChalkListEntries(t: Table, keys: seq<Bracket>, k: int)
    ensures forall e | e in ChalkList(t, keys, k) ::
      e.seed1 == e.place1 == k && e.seed2 == e.place2 == k + 1
      && Bracket(e.year, e.weight) in keys
  {
    if keys != [] {
      var init := keys[..|keys| - 1];
      ChalkListEntries(t, init, k);
      forall e | e in ChalkList(t, keys, k)
        ensures e.seed1 == e.place1 == k && e.seed2 == e.place2 == k + 1 && Bracket(e.year, e.weight) in keys
      {
        if e !in ChalkList(t, init, k) {
          assert e in BracketChalk(t, keys[|keys| - 1], k);
        } else {
          assert Bracket(e.year, e.weight) in init;
        }
      }
    }
  }

  /** One pair check of one bracket, appended to its list. */
  method CheckPair(t: Table, b: Bracket, k: int, list: seq<ChalkEntry>) returns (list': seq<ChalkEntry>)
    ensures list' == list + BracketChalk(t, b, k)
  {
    var group := BracketRows(t, b);
    list' := list;
    if PairChalk(group, k) {
      list' := list' + [ChalkEntryOf(b, PairRows(group, k), k)];
    }
  }

  /** The bracket loop filling `chalk_results` over the brackets `keys`:
      the final, third, fifth and seventh place pairs. */
  method ChalkOver(t: Table, keys: seq<Bracket>)
    returns (final: seq<ChalkEntry>, third: seq<ChalkEntry>, fifth: seq<ChalkEntry>, seventh: seq<ChalkEntry>)
    ensures final == ChalkList(t, keys, 1)
    ensures third == ChalkList(t, keys, 3)
    ensures fifth == ChalkList(t, keys, 5)
    ensures seventh == ChalkList(t, keys, 7)
  {
    final, third, fifth, seventh := [], [], [], [];
    for i := 0 to |keys|
      invariant final == ChalkList(t, keys[..i], 1)
      invariant third == ChalkList(t, keys[..i], 3)
      invariant fifth == ChalkList(t, keys[..i], 5)
      invariant seventh == ChalkList(t, keys[..i], 7)
    {
      assert keys[..i + 1][..i] == keys[..i];
      final := CheckPair(t, keys[i], 1, final);
      third := CheckPair(t, keys[i], 3, third);
      fifth := CheckPair(t, keys[i], 5, fifth);
      seventh := CheckPair(t, keys[i], 7, seventh);
    }
    assert keys[..|keys|] == keys;
  }

  /** `chalk_results` for the whole table, bracket by bracket. */
  method DetectChalk(t: Table)
    returns (final: seq<ChalkEntry>, third: seq<ChalkEntry>, fifth: seq<ChalkEntry>, seventh: seq<ChalkEntry>)
    ensures final == ChalkList(t, BracketKeys(t), 1)
    ensures third == ChalkList(t, BracketKeys(t), 3)
    ensures fifth == ChalkList(t, BracketKeys(t), 5)
    ensures seventh == ChalkList(t, BracketKeys(t), 7)
  {
    final, third, fifth, seventh := ChalkOver(t, BracketKeys(t));
  }

  // ---------------------------------------------------------------------
  // Exact seed-place matches

  /** How many rows placed exactly at their seed. */
  function CountExact(group: Table): (r: nat)
    ensures r <= |group|
  {
    if group == [] then 0
    else
      var x := group[|group| - 1];
      CountExact(group[..|group| - 1]) + (if ExactSeed(x.seed) == Some(x.place) then 1 else 0)
  }

  /** `count_exact_matches(group)`. */
  method CountExactMatches(group: Table) returns (n: nat)
    ensures n == CountExact(group)
    ensures n <= |group|
  {
    n := 0;
    for i := 0 to |group|
      invariant n == CountExact(group[..i])
    {
      assert group[..i + 1][..i] == group[..i];
      var seed := group[i].seed;
      if seed.Some? {
        var s := Strip(seed.value);
        if s != "US" {
          var v := ParseInt(s);
          if v == Some(group[i].place) {
            n := n + 1;
          }
        }
      }
    }
    assert group[..|group|] == group;
  }

  /** The same count with `convert_seed_to_int`'s reading of the seed. */
  function CountSeededAtPlace(group: Table): nat {
    if group == [] then 0
    else
      var x := group[|group| - 1];
      CountSeededAtPlace(group[..|group| - 1]) + (if SeedToInt(x.seed) == Some(x.place) then 1 else 0)
  }

  lemma {:induction false} ExactCountsAgree(group: Table)
    ensures CountExact(group) == CountSeededAtPlace(group)
  {
    if group != [] {
      ExactCountsAgree(group[..|group| - 1]);
      ExactSeedAgrees(group[|group| - 1].seed);
    }
  }

  // ---------------------------------------------------------------------
  // Seed-placement delta sums

  /** The delta sum of the rows of year y. */
  function YearDelta(t: Table, y: int): int {
    if t == [] then 0
    else YearDelta(t[..|t| - 1], y) + (if t[|t| - 1].year == y then t[|t| - 1].delta else 0)
  }

  const SumFirstYear := 2000
  const SumYears := 26

  /** `yearly_differential_sum`: one sum per year 2000 to 2025, 0 for a
      year without rows. */
  function YearlySums(t: Table): (r: seq<int>)
    ensures |r| == SumYears
  {
    seq(SumYears, k requires 0 <= k < SumYears => YearDelta(t, SumFirstYear + k))
  }

  function Sum(s: seq<int>): int {
    if s == [] then 0 else Sum(s[..|s| - 1]) + s[|s| - 1]
  }

  /** The delta sum of the rows with lo <= year < hi. */
  function RangeDelta(t: Table, lo: int, hi: int): int {
    if t == [] then 0
    else
      var x := t[|t| - 1];
      RangeDelta(t[..|t| - 1], lo, hi) + (if lo <= x.year < hi then x.delta else 0)
  }

  /** The sums of the years lo, ..., lo + n - 1. */
  function YearsDelta(t: Table, lo: int, n: nat): int {
    if n == 0 then 0 else YearsDelta(t, lo, n - 1) + YearDelta(t, lo + n - 1)
  }

  lemma {:induction false} YearsDeltaAppend(t: Table, x: Record, lo: int, n: nat)
    ensures YearsDelta(t + [x], lo, n) == YearsDelta(t, lo, n) + (if lo <= x.year < lo + n then x.delta else 0)
  {
    assert (t + [x])[..|t|] == t;
    if n > 0 {
      YearsDeltaAppend(t, x, lo, n - 1);
    }
  }

  lemma {:induction false} YearsDeltaIsRange(t: Table, lo: int, n: nat)
    ensures YearsDelta(t, lo, n) == RangeDelta(t, lo, lo + n)
  {
    if t != [] {
      var init, x := t[..|t| - 1], t[|t| - 1];
      YearsDeltaIsRange(init, lo, n);
      assert t == init + [x];
      YearsDeltaAppend(init, x, lo, n);
    } else {
      YearsDeltaEmpty(lo, n);
    }
  }

  lemma {:induction false} YearsDeltaEmpty(lo: int, n: nat)
    ensures YearsDelta([], lo, n) == 0
  {
    if n > 0 {
      YearsDeltaEmpty(lo, n - 1);
    }
  }

  lemma {:induction false} SumYearly(t: Table, n: nat)
    requires n <= SumYears
    ensures Sum(YearlySums(t)[..n]) == YearsDelta(t, SumFirstYear, n)
  {
    if n > 0 {
      SumYearly(t, n - 1);
      assert YearlySums(t)[..n][..n - 1] == YearlySums(t)[..n - 1];
    }
  }

  /** Nothing is lost or counted twice: the yearly sums add up to the
      delta sum of all rows of 2000 to 2025. Rows of 1999, which the load
      checks accept, fall outside every yearly sum. */
  lemma YearlySumsConserve(t: Table)
    ensures Sum(YearlySums(t)) == RangeDelta(t, 2000, 2026)
  {
    SumYearly(t, SumYears);
    assert YearlySums(t)[..SumYears] == YearlySums(t);
    YearsDeltaIsRange(t, SumFirstYear, SumYears);
  }

  /** `bracket_differential_sum` for one bracket. */
  function BracketDelta(t: Table, b: Bracket): int {
    if t == [] then 0
    else BracketDelta(t[..|t| - 1], b) + (if BracketOf(t[|t| - 1]) == b then t[|t| - 1].delta else 0)
  }

  function BracketsDelta(t: Table, keys: seq<Bracket>): int {
    if keys == [] then 0 else BracketsDelta(t, keys[..|keys| - 1]) + BracketDelta(t, keys[|keys| - 1])
  }

  lemma {:induction false} BracketsDeltaAppend(t: Table, x: Record, keys: seq<Bracket>)
    requires Distinct(keys)
    ensures BracketsDelta(t + [x], keys) == BracketsDelta(t, keys) + (if BracketOf(x) in keys then x.delta else 0)
  {
    assert (t + [x])[..|t|] == t;
    if keys != [] {
      var init, b := keys[..|keys| - 1], keys[|keys| - 1];
      assert Distinct(init) by {
        forall i, j | 0 <= i < j < |init| ensures init[i] != init[j] {
          assert init[i] == keys[i] && init[j] == keys[j];
        }
      }
      BracketsDeltaAppend(t, x, init);
      assert keys == init + [b];
      forall i | 0 <= i < |init| ensures init[i] != b {
        assert init[i] == keys[i];
      }
    }
  }

  lemma {:induction false} BracketsDeltaEmpty(keys: seq<Bracket>)
    ensures BracketsDelta([], keys) == 0
  {
    if keys != [] {
      BracketsDeltaEmpty(keys[..|keys| - 1]);
    }
  }

  function TotalDelta(t: Table): int {
    if t == [] then 0 else TotalDelta(t[..|t| - 1]) + t[|t| - 1].delta
  }

  lemma {:induction false} BracketsDeltaTotal(t: Table, keys: seq<Bracket>)
    requires Distinct(keys)
    requires forall x | x in t :: BracketOf(x) in keys
    ensures BracketsDelta(t, keys) == TotalDelta(t)
  {
    if t != [] {
      var init, x := t[..|t| - 1], t[|t| - 1];
      assert t == init + [x];
      BracketsDeltaTotal(init, keys);
      BracketsDeltaAppend(init, x, keys);
    } else {
      BracketsDeltaEmpty(keys);
    }
  }

  /** The per-bracket sums over all brackets of the table add up to the
      delta sum of the whole table. */
  lemma BracketSumsConserve(t: Table)
    ensures BracketsDelta(t, BracketKeys(t)) == TotalDelta(t)
  {
    var keys := BracketKeys(t);
    BracketKeysMembers(t);
    BracketKeysOrdered(t);
    forall x | x in t ensures BracketOf(x) in keys {
    }
    BracketsDeltaTotal(t, keys);
  }

  /** The bracket's sum is the delta sum of its own rows. */
  lemma {:induction false} BracketDeltaOfRows(t: Table, b: Bracket)
    ensures BracketDelta(t, b) == TotalDelta(BracketRows(t, b))
  {
    if t != [] {
      var init, x := t[..|t| - 1], t[|t| - 1];
      BracketDeltaOfRows(init, b);
      if BracketOf(x) == b {
        var r := BracketRows(init, b);
        assert (r + [x])[..|r|] == r;
      }
    }
  }

  // ---------------------------------------------------------------------
  // Most chalk brackets

  /** One row of `bracket_chalk_analysis`: a bracket with its delta sum
      and its exact-match count. */
  datatype BracketChalkRow = BracketChalkRow(year: int, weight: int, sum: int, exact: nat)

  function AnalysisRow(t: Table, b: Bracket): BracketChalkRow {
    BracketChalkRow(b.year, b.weight, BracketDelta(t, b), CountExact(BracketRows(t, b)))
  }

  /** The merge of the two per-bracket tables: one row per bracket. */
  function Analysis(t: Table, keys: seq<Bracket>): (r: seq<BracketChalkRow>)
    ensures |r| == |keys|
  {
    if keys == [] then [] else Analysis(t, keys[..|keys| - 1]) + [AnalysisRow(t, keys[|keys| - 1])]
  }

  lemma {:induction false} AnalysisRows(t: Table, keys: seq<Bracket>)
    ensures forall y | y in Analysis(t, keys) ::
      y.sum == TotalDelta(BracketRows(t, Bracket(y.year, y.weight)))
      && y.exact <= |BracketRows(t, Bracket(y.year, y.weight))|
      && Bracket(y.year, y.weight) in keys
  {
    if keys != [] {
      var b := keys[|keys| - 1];
      AnalysisRows(t, keys[..|keys| - 1]);
      BracketDeltaOfRows(t, b);
    }
  }

  function SumKey(y: BracketChalkRow): int {
    y.sum
  }

  function Min(a: int, b: int): int {
    if a <= b then a else b
  }

  /** The first ten rows of `a` by ascending sum. */
  function LowestTen(a: seq<BracketChalkRow>): (r: seq<BracketChalkRow>)
    ensures |r| == Min(10, |a|)
  {
    var s := SortBy(a, SumKey);
    s[..Min(10, |s|)]
  }

  /** No row left out of the first ten has a lower sum than one in it. */
  lemma LowestTenLowest(a: seq<BracketChalkRow>)
    ensures forall x, y | x in LowestTen(a) && y in a :: y in LowestTen(a) || x.sum <= y.sum
    ensures forall x | x in LowestTen(a) :: x in a
  {
    var s := SortBy(a, SumKey);
    var top := LowestTen(a);
    assert top == s[..|top|];
    forall x, y | x in top && y in a ensures y in top || x.sum <= y.sum {
      assert y in multiset(a);
      assert y in s;
      var i :| 0 <= i < |top| && top[i] == x;
      var j :| 0 <= j < |s| && s[j] == y;
      if j < |top| {
        assert y == top[j];
      } else {
        assert SumKey(s[i]) <= SumKey(s[j]);
      }
    }
    forall x | x in top ensures x in a {
      assert x in s;
      assert x in multiset(s);
    }
  }

  /** `top_10_chalk_by_sum`: the analysis sorted by ascending sum, first ten rows. */
  function MostChalk(t: Table): seq<BracketChalkRow> {
    LowestTen(Analysis(t, BracketKeys(t)))
  }

  // ---------------------------------------------------------------------
  // Brackets with the most All-Americans of a class

  /** The rows of class e. */
  function ClassCount(rows: Table, e: Elig): (r: nat)
    ensures r <= |rows|
  {
    if rows == [] then 0
    else ClassCount(rows[..|rows| - 1], e) + (if rows[|rows| - 1].elig == e then 1 else 0)
  }

  /** A count is positive exactly when some row is of the class. */
  lemma {:induction false} ClassCountPositive(rows: Table, e: Elig)
    ensures ClassCount(rows, e) > 0 <==> exists x :: x in rows && x.elig == e
  {
    if rows != [] {
      var init, x := rows[..|rows| - 1], rows[|rows| - 1];
      ClassCountPositive(init, e);
      assert forall y :: y in rows <==> y in init || y == x;
    }
  }

  /** The `Count` of (bracket b, class e) in `aa_by_bracket_class`. */
  function BracketClassCount(t: Table, b: Bracket, e: Elig): nat {
    ClassCount(BracketRows(t, b), e)
  }

  /** The largest count of class e over the brackets `keys`; 0 when no
      bracket has one. */
  function MaxCount(t: Table, keys: seq<Bracket>, e: Elig): nat {
    if keys == [] then 0
    else
      var m, c := MaxCount(t, keys[..|keys| - 1], e), BracketClassCount(t, keys[|keys| - 1], e);
      if c > m then c else m
  }

  /** No bracket exceeds the maximum, and a positive maximum is reached. */
  lemma {:induction false} MaxCountIsMax(t: Table, keys: seq<Bracket>, e: Elig)
    ensures forall b | b in keys :: BracketClassCount(t, b, e) <= MaxCount(t, keys, e)
    ensures MaxCount(t, keys, e) == 0 || exists b :: b in keys && BracketClassCount(t, b, e) == MaxCount(t, keys, e)
  {
    if keys != [] {
      var init, b := keys[..|keys| - 1], keys[|keys| - 1];
      MaxCountIsMax(t, init, e);
      assert forall y :: y in keys <==> y in init || y == b;
    }
  }

  /** `brackets_with_max`: the brackets of `keys` whose count is m, in order. */
  function MaxKeys(t: Table, keys: seq<Bracket>, e: Elig, m: nat): seq<Bracket> {
    if keys == [] then []
    else
      var b := keys[|keys| - 1];
      MaxKeys(t, keys[..|keys| - 1], e, m) + (if BracketClassCount(t, b, e) == m then [b] else [])
  }

  /** Exactly the brackets of `keys` with count m are kept. */
  lemma {:induction false} MaxKeysMembers(t: Table, keys: seq<Bracket>, e: Elig, m: nat)
    ensures forall b :: b in MaxKeys(t, keys, e, m) <==> b in keys && BracketClassCount(t, b, e) == m
  {
    if keys != [] {
      var init, b := keys[..|keys| - 1], keys[|keys| - 1];
      MaxKeysMembers(t, init, e, m);
      assert forall y :: y in keys <==> y in init || y == b;
    }
  }

  predicate StrictlyOrdered(keys: seq<Bracket>) {
    forall i, j | 0 <= i < j < |keys| :: Before(keys[i], keys[j])
  }

  /** Filtering keeps the (year, weight) order. */
  lemma {:induction false} MaxKeysOrdered(t: Table, keys: seq<Bracket>, e: Elig, m: nat)
    requires StrictlyOrdered(keys)
    ensures StrictlyOrdered(MaxKeys(t, keys, e, m))
  {
    if keys != [] {
      var init, b := keys[..|keys| - 1], keys[|keys| - 1];
      assert StrictlyOrdered(init) by {
        forall i, j | 0 <= i < j < |init| ensures Before(init[i], init[j]) {
          assert init[i] == keys[i] && init[j] == keys[j];
        }
      }
      MaxKeysOrdered(t, init, e, m);
      var r0 := MaxKeys(t, init, e, m);
      MaxKeysMembers(t, init, e, m);
      forall i | 0 <= i < |r0| ensures Before(r0[i], b) {
        assert r0[i] in init;
        var k :| 0 <= k < |init| && init[k] == r0[i];
        assert keys[k] == init[k];
      }
    }
  }

  /** One entry of `wrestler_list`: its three fields, which `LineText`
      writes out. */
  datatype PlaceLine = PlaceLine(place: int, wrestler: string, elig: Elig)

  /** `f"{place}. {wrestler} ({elig})"`. */
  function LineText(l: PlaceLine): string {
    IntToString(l.place) + ". " + l.wrestler + " (" + EligName(l.elig) + ")"
  }

  /** A line starts with the place, a full stop and a space, and the place
      reads back from it. */
  lemma LineTextStartsWithPlace(l: PlaceLine)
    ensures var p := IntToString(l.place);
            |LineText(l)| > |p| + 1 && LineText(l)[..|p| + 2] == p + ". "
            && ParseInt(p) == Some(l.place)
  {
    var p := IntToString(l.place);
    assert LineText(l) == (p + ". ") + (l.wrestler + " (" + EligName(l.elig) + ")");
    ParseIntRoundTrip(l.place);
  }

  function LineOf(x: Record): PlaceLine {
    PlaceLine(x.place, x.wrestler, x.elig)
  }

  function LinesOf(s: Table): (r: seq<PlaceLine>)
    ensures |r| == |s|
  {
    if s == [] then [] else LinesOf(s[..|s| - 1]) + [LineOf(s[|s| - 1])]
  }

  lemma {:induction false} LinesOfAt(s: Table)
    ensures forall k | 0 <= k < |s| :: LinesOf(s)[k] == LineOf(s[k])
  {
    if s != [] {
      LinesOfAt(s[..|s| - 1]);
    }
  }

  /** `wrestler_list`: one line per row of the bracket, in place order. */
  function BracketLines(rows: Table): seq<PlaceLine> {
    LinesOf(SortBy(rows, PlaceKey))
  }

  /** The lines list every row of the bracket once, in place order. */
  lemma BracketLinesOrdered(rows: Table)
    ensures multiset(BracketLines(rows)) == multiset(LinesOf(rows))
    ensures forall i, j | 0 <= i < j < |BracketLines(rows)| ::
      BracketLines(rows)[i].place <= BracketLines(rows)[j].place
  {
    var s := SortBy(rows, PlaceKey);
    LinesOfAt(s);
    LinesOfPermutation(rows, s);
  }

  lemma {:induction false} LinesOfAppend(s: Table, x: Record)
    ensures LinesOf(s + [x]) == LinesOf(s) + [LineOf(x)]
  {
    assert (s + [x])[..|s|] == s;
  }

  /** Rearranging rows rearranges their lines the same way. */
  lemma {:induction false} LinesOfPermutation(a: Table, b: Table)
    requires multiset(a) == multiset(b)
    ensures multiset(LinesOf(a)) == multiset(LinesOf(b))
    decreases |a|
  {
    if a != [] {
      var init, x := a[..|a| - 1], a[|a| - 1];
      assert a == init + [x];
      assert x in multiset(b);
      var k :| 0 <= k < |b| && b[k] == x;
      var rest := b[..k] + b[k + 1..];
      assert b == b[..k] + [x] + b[k + 1..];
      assert multiset(rest) == multiset(b) - multiset{x};
      assert multiset(init) == multiset(a) - multiset{x};
      LinesOfPermutation(init, rest);
      LinesOfSplit(b[..k], x, b[k + 1..]);
      LinesOfConcat(b[..k], b[k + 1..]);
    }
  }

  lemma {:induction false} LinesOfConcat(a: Table, b: Table)
    ensures LinesOf(a + b) == LinesOf(a) + LinesOf(b)
    decreases |b|
  {
    if b == [] {
      assert a + b == a;
    } else {
      var init, y := b[..|b| - 1], b[|b| - 1];
      assert a + b == (a + init) + [y];
      LinesOfConcat(a, init);
      LinesOfAppend(a + init, y);
    }
  }

  lemma LinesOfSplit(a: Table, x: Record, b: Table)
    ensures multiset(LinesOf(a + [x] + b)) == multiset(LinesOf(a) + LinesOf(b)) + multiset{LineOf(x)}
  {
    LinesOfConcat(a + [x], b);
    LinesOfAppend(a, x);
  }

  /** One entry of `bracket_details`. */
  datatype BracketDetail = BracketDetail(year: int, weight: int, wrestlers: seq<PlaceLine>)

  function DetailOf(t: Table, b: Bracket): BracketDetail {
    BracketDetail(b.year, b.weight, BracketLines(BracketRows(t, b)))
  }

  function Details(t: Table, bs: seq<Bracket>): (r: seq<BracketDetail>)
    ensures |r| == |bs|
  {
    if bs == [] then [] else Details(t, bs[..|bs| - 1]) + [DetailOf(t, bs[|bs| - 1])]
  }

  lemma DetailsAppend(t: Table, bs: seq<Bracket>, b: Bracket)
    ensures Details(t, bs + [b]) == Details(t, bs) + [DetailOf(t, b)]
  {
    assert (bs + [b])[..|bs|] == bs;
  }

  /** `max_brackets_by_class[elig_class]`. */
  datatype ClassMax = ClassMax(maxCount: nat, brackets: seq<BracketDetail>)

  /** The class's entry over the brackets `keys`; `None` where the class
      has no rows, since `int(max_count)` of an empty maximum raises. */
  function ClassMaxIn(t: Table, keys: seq<Bracket>, e: Elig): Option<ClassMax> {
    var m := MaxCount(t, keys, e);
    if m == 0 then None else Some(ClassMax(m, Details(t, MaxKeys(t, keys, e, m))))
  }

  function ClassMaxOf(t: Table, e: Elig): Option<ClassMax> {
    ClassMaxIn(t, BracketKeys(t), e)
  }

  /** Over brackets covering the table, a class has an entry exactly when
      some row is of that class. */
  lemma ClassMaxInPresent(t: Table, keys: seq<Bracket>, e: Elig)
    requires forall x | x in t :: BracketOf(x) in keys
    ensures ClassMaxIn(t, keys, e).Some? <==> HasClass(t, e)
  {
    var m := MaxCount(t, keys, e);
    MaxCountIsMax(t, keys, e);
    if m > 0 {
      var b :| b in keys && BracketClassCount(t, b, e) == m;
      ClassCountPositive(BracketRows(t, b), e);
      var x :| x in BracketRows(t, b) && x.elig == e;
    }
    if HasClass(t, e) {
      var x :| x in t && x.elig == e;
      var b := BracketOf(x);
      assert x in BracketRows(t, b);
      ClassCountPositive(BracketRows(t, b), e);
      assert BracketClassCount(t, b, e) > 0;
    }
  }

  lemma BracketKeysCover(t: Table)
    ensures forall x | x in t :: BracketOf(x) in BracketKeys(t)
  {
    BracketKeysMembers(t);
  }

  /** A class has an entry exactly when some row is of that class. */
  lemma ClassMaxPresent(t: Table, e: Elig)
    ensures ClassMaxOf(t, e).Some? <==> HasClass(t, e)
  {
    BracketKeysCover(t);
    ClassMaxInPresent(t, BracketKeys(t), e);
  }

  /** The entry's count is the largest of any bracket, and its brackets
      are exactly those that reach it, in (year, weight) order. */
  lemma ClassMaxMeaning(t: Table, e: Elig, c: ClassMax)
    requires ClassMaxOf(t, e) == Some(c)
    ensures c.maxCount >= 1
    ensures forall x | x in t :: BracketClassCount(t, BracketOf(x), e) <= c.maxCount
    ensures c.brackets == Details(t, MaxKeys(t, BracketKeys(t), e, c.maxCount))
    ensures forall b :: b in MaxKeys(t, BracketKeys(t), e, c.maxCount) <==>
      (exists x :: x in t && BracketOf(x) == b) && BracketClassCount(t, b, e) == c.maxCount
    ensures StrictlyOrdered(MaxKeys(t, BracketKeys(t), e, c.maxCount))
    ensures |c.brackets| >= 1
  {
    var keys := BracketKeys(t);
    BracketKeysMembers(t);
    BracketKeysOrdered(t);
    MaxKeysOrdered(t, keys, e, c.maxCount);
    MaxKeysMembers(t, keys, e, c.maxCount);
    MaxCountIsMax(t, keys, e);
    var b :| b in keys && BracketClassCount(t, b, e) == c.maxCount;
    assert b in MaxKeys(t, keys, e, c.maxCount);
  }

  /** The lines of the bracket's rows, in place order (the inner loop). */
  method FormatBracket(rows: Table) returns (lines: seq<PlaceLine>)
    ensures lines == BracketLines(rows)
  {
    var sorted := SortBy(rows, PlaceKey);
    lines := LinesInOrder(sorted);
  }

  /** The loop appending one line per row of the sorted bracket. */
  method LinesInOrder(sorted: Table) returns (lines: seq<PlaceLine>)
    ensures lines == LinesOf(sorted)
  {
    lines := [];
    for i := 0 to |sorted|
      invariant lines == LinesOf(sorted[..i])
    {
      assert sorted[..i + 1][..i] == sorted[..i];
      lines := lines + [PlaceLine(sorted[i].place, sorted[i].wrestler, sorted[i].elig)];
    }
    assert sorted[..|sorted|] == sorted;
  }

  /** The largest count of class e over `keys` (`class_data['Count'].max()`). */
  method ScanMax(t: Table, keys: seq<Bracket>, e: Elig) returns (m: nat)
    ensures m == MaxCount(t, keys, e)
  {
    m := 0;
    for i := 0 to |keys|
      invariant m == MaxCount(t, keys[..i], e)
    {
      assert keys[..i + 1][..i] == keys[..i];
      var c := ClassCount(BracketRows(t, keys[i]), e);
      if c > m {
        m := c;
      }
    }
    assert keys[..|keys|] == keys;
  }

  /** The details of bracket b appended when its count of class e is m. */
  method AddDetail(t: Table, b: Bracket, e: Elig, m: nat, details: seq<BracketDetail>)
    returns (details': seq<BracketDetail>)
    ensures details' == details + (if BracketClassCount(t, b, e) == m then [DetailOf(t, b)] else [])
  {
    details' := details;
    if ClassCount(BracketRows(t, b), e) == m {
      var lines := FormatBracket(BracketRows(t, b));
      details' := details' + [BracketDetail(b.year, b.weight, lines)];
    }
  }

  /** The details of the brackets of `keys` whose count of class e is m,
      computed bracket by bracket. */
  function DetailsFor(t: Table, keys: seq<Bracket>, e: Elig, m: nat): seq<BracketDetail> {
    if keys == [] then []
    else
      var b := keys[|keys| - 1];
      DetailsFor(t, keys[..|keys| - 1], e, m) + (if BracketClassCount(t, b, e) == m then [DetailOf(t, b)] else [])
  }

  lemma {:induction false} DetailsForMaxKeys(t: Table, keys: seq<Bracket>, e: Elig, m: nat)
    ensures DetailsFor(t, keys, e, m) == Details(t, MaxKeys(t, keys, e, m))
  {
    if keys != [] {
      var init, b := keys[..|keys| - 1], keys[|keys| - 1];
      DetailsForMaxKeys(t, init, e, m);
      if BracketClassCount(t, b, e) == m {
        assert MaxKeys(t, keys, e, m) == MaxKeys(t, init, e, m) + [b];
        DetailsAppend(t, MaxKeys(t, init, e, m), b);
      } else {
        assert MaxKeys(t, keys, e, m) == MaxKeys(t, init, e, m) + [];
        assert MaxKeys(t, keys, e, m) == MaxKeys(t, init, e, m);
      }
    }
  }

  /** The details of each bracket of `keys` whose count of class e is m. */
  method CollectDetails(t: Table, keys: seq<Bracket>, e: Elig, m: nat) returns (details: seq<BracketDetail>)
    ensures details == Details(t, MaxKeys(t, keys, e, m))
  {
    details := [];
    for i := 0 to |keys|
      invariant details == DetailsFor(t, keys[..i], e, m)
    {
      assert keys[..i + 1][..i] == keys[..i];
      details := AddDetail(t, keys[i], e, m, details);
    }
    assert keys[..|keys|] == keys;
    DetailsForMaxKeys(t, keys, e, m);
  }

  /** One class of the per-class loop: the maximum, then the details of
      each bracket reaching it. */
  method ClassMaxScan(t: Table, keys: seq<Bracket>, e: Elig) returns (r: Option<ClassMax>)
    ensures r == ClassMaxIn(t, keys, e)
  {
    var m := ScanMax(t, keys, e);
    if m == 0 {
      return None;
    }
    var details := CollectDetails(t, keys, e, m);
    r := Some(ClassMax(m, details));
  }

  /** `max_brackets_by_class` filled class by class over `es`, with
      `entry` giving each class's entry; the first class without one
      aborts the script. */
  function ClassesFrom(es: seq<Elig>, entry: Elig -> Option<ClassMax>): Result<map<Elig, ClassMax>, Elig> {
    if es == [] then Ok(map[])
    else
      var prev := ClassesFrom(es[..|es| - 1], entry);
      var e := es[|es| - 1];
      if prev.Err? then prev
      else
        match entry(e)
        case None => Err(e)
        case Some(c) => Ok(prev.value[e := c])
  }

  /** The run succeeds exactly when every class of `es` has an entry, and
      then maps each class of `es`, and nothing else, to its entry. */
  lemma {:induction false} ClassesFromOk(es: seq<Elig>, entry: Elig -> Option<ClassMax>)
    ensures ClassesFrom(es, entry).Ok? <==> forall k | 0 <= k < |es| :: entry(es[k]).Some?
    ensures ClassesFrom(es, entry).Ok? ==>
      forall e :: (e in ClassesFrom(es, entry).value <==> e in es)
        && (e in es ==> entry(e) == Some(ClassesFrom(es, entry).value[e]))
  {
    if es != [] {
      var init, e := es[..|es| - 1], es[|es| - 1];
      ClassesFromOk(init, entry);
      assert forall k | 0 <= k < |init| :: init[k] == es[k];
      assert forall y :: y in es <==> y in init || y == e;
    }
  }

  /** A failed run names the first class of `es` without an entry. */
  lemma {:induction false} ClassesFromErr(es: seq<Elig>, entry: Elig -> Option<ClassMax>)
    requires ClassesFrom(es, entry).Err?
    ensures exists i | 0 <= i < |es| :: (es[i] == ClassesFrom(es, entry).error && entry(es[i]).None?
      && forall k | 0 <= k < i :: entry(es[k]).Some?)
  {
    var init, e := es[..|es| - 1], es[|es| - 1];
    assert forall k | 0 <= k < |init| :: init[k] == es[k];
    if ClassesFrom(init, entry).Err? {
      ClassesFromErr(init, entry);
      var i :| 0 <= i < |init| && init[i] == ClassesFrom(init, entry).error && entry(init[i]).None?
        && (forall k | 0 <= k < i :: entry(init[k]).Some?);
      assert es[i] == init[i];
    } else {
      ClassesFromOk(init, entry);
      assert es[|es| - 1] == e;
    }
  }

  /** The run over `ELIGIBILITY_ORDER` for any `entry` present exactly on
      the classes `has` holds for: it fails naming the first class in
      order without an entry, or maps every class to its entry. */
  lemma OrderedClasses(entry: Elig -> Option<ClassMax>, has: Elig -> bool)
    requires forall e :: entry(e).Some? <==> has(e)
    ensures ClassesFrom(EligibilityOrder, entry).Ok? <==> forall e :: has(e)
    ensures ClassesFrom(EligibilityOrder, entry).Ok? ==>
      forall e :: e in ClassesFrom(EligibilityOrder, entry).value
        && entry(e) == Some(ClassesFrom(EligibilityOrder, entry).value[e])
    ensures ClassesFrom(EligibilityOrder, entry).Err? ==>
      var e := ClassesFrom(EligibilityOrder, entry).error;
      !has(e) && forall d | Rank(d) < Rank(e) :: has(d)
  {
    var es := EligibilityOrder;
    ClassesFromOk(es, entry);
    forall e ensures e in es {
      assert es[Rank(e)] == e;
    }
    if ClassesFrom(es, entry).Err? {
      ClassesFromErr(es, entry);
      var i :| 0 <= i < |es| && es[i] == ClassesFrom(es, entry).error && entry(es[i]).None?
        && (forall k | 0 <= k < i :: entry(es[k]).Some?);
      assert Rank(es[i]) == i;
      forall d | Rank(d) < Rank(es[i]) ensures has(d) {
        assert es[Rank(d)] == d;
      }
    } else {
      forall e ensures has(e) {
        assert es[Rank(e)] == e;
      }
    }
  }

  /** Each class's entry over the brackets `keys`. */
  function Entries(t: Table, keys: seq<Bracket>): Elig -> Option<ClassMax> {
    e => ClassMaxIn(t, keys, e)
  }

  /** `max_brackets_by_class` over the brackets `keys`. */
  function MaxBracketsIn(t: Table, keys: seq<Bracket>): Result<map<Elig, ClassMax>, Elig> {
    ClassesFrom(EligibilityOrder, Entries(t, keys))
  }

  /** `max_brackets_by_class` over `ELIGIBILITY_ORDER` and the table's brackets. */
  function MaxBracketsSpec(t: Table): Result<map<Elig, ClassMax>, Elig> {
    MaxBracketsIn(t, BracketKeys(t))
  }

  lemma EntriesPresent(t: Table)
    ensures forall e :: Entries(t, BracketKeys(t))(e).Some? <==> HasClass(t, e)
  {
    forall e ensures Entries(t, BracketKeys(t))(e).Some? <==> HasClass(t, e) {
      BracketKeysCover(t);
      ClassMaxInPresent(t, BracketKeys(t), e);
    }
  }

  /** Every class has an entry when every class has rows; otherwise the
      error names the first class in order that has none. */
  lemma MaxBracketsMeaning(t: Table)
    ensures MaxBracketsSpec(t).Ok? <==> forall e :: HasClass(t, e)
    ensures MaxBracketsSpec(t).Ok? ==>
      forall e :: e in MaxBracketsSpec(t).value && ClassMaxOf(t, e) == Some(MaxBracketsSpec(t).value[e])
    ensures MaxBracketsSpec(t).Err? ==>
      var e := MaxBracketsSpec(t).error;
      !HasClass(t, e) && forall d | Rank(d) < Rank(e) :: HasClass(t, d)
  {
    EntriesPresent(t);
    OrderedClasses(Entries(t, BracketKeys(t)), e => HasClass(t, e));
  }

  lemma {:induction false} ClassesFromErrSticks(es: seq<Elig>, entry: Elig -> Option<ClassMax>, i: nat)
    requires i <= |es| && ClassesFrom(es[..i], entry).Err?
    ensures ClassesFrom(es, entry) == ClassesFrom(es[..i], entry)
    decreases |es| - i
  {
    if i < |es| {
      assert es[..i + 1][..i] == es[..i];
      ClassesFromErrSticks(es, entry, i + 1);
    } else {
      assert es[..i] == es;
    }
  }

  /** One more class: its entry is added, or the run stops at it. */
  lemma ClassesFromNext(es: seq<Elig>, entry: Elig -> Option<ClassMax>, i: nat, found: map<Elig, ClassMax>)
    requires i < |es| && ClassesFrom(es[..i], entry) == Ok(found)
    ensures ClassesFrom(es[..i + 1], entry)
      == match entry(es[i]) case None => Err(es[i]) case Some(c) => Ok(found[es[i] := c])
  {
    assert es[..i + 1][..i] == es[..i];
  }

  /** The per-class loop filling `max_brackets_by_class`, over the brackets `keys`. */
  method MaxBracketsOver(t: Table, keys: seq<Bracket>) returns (r: Result<map<Elig, ClassMax>, Elig>)
    ensures r == MaxBracketsIn(t, keys)
  {
    var entry := Entries(t, keys);
    var found := map[];
    for i := 0 to |EligibilityOrder|
      invariant ClassesFrom(EligibilityOrder[..i], entry) == Ok(found)
    {
      ClassesFromNext(EligibilityOrder, entry, i, found);
      var e := EligibilityOrder[i];
      var c := ClassMaxScan(t, keys, e);
      assert entry(e) == c;
      if c.None? {
        ClassesFromErrSticks(EligibilityOrder, entry, i + 1);
        return Err(e);
      }
      found := found[e := c.value];
    }
    assert EligibilityOrder[..|EligibilityOrder|] == EligibilityOrder;
    r := Ok(found);
  }

  /** `max_brackets_by_class` for the whole table. */
  method MaxBracketsByClass(t: Table) returns (r: Result<map<Elig, ClassMax>, Elig>)
    ensures r == MaxBracketsSpec(t)
  {
    r := MaxBracketsOver(t, BracketKeys(t));
  }
}
