/** The table of All-American placements: one record per wrestler per
    season, the eligibility classes and their fixed order, grouping by
    wrestler, and the stable sort the analysis uses to put a career in
    chronological order. */
module Records {
  import opened Results
  import opened Text

  /** Eligibility class, in `ELIGIBILITY_ORDER`. */
  datatype Elig = Fr | So | Jr | Sr | SSr

  const EligibilityOrder: seq<Elig> := [Fr, So, Jr, Sr, SSr]

  /** The class's index in `ELIGIBILITY_ORDER` (`elig_sort_key`). */
  function Rank(e: Elig): (r: nat)
    ensures r < 5 && EligibilityOrder[r] == e
  {
    match e
    case Fr => 0
    case So => 1
    case Jr => 2
    case Sr => 3
    case SSr => 4
  }

  function EligName(e: Elig): string {
    match e
    case Fr => "Fr"
    case So => "So"
    case Jr => "Jr"
    case Sr => "Sr"
    case SSr => "SSr"
  }

  /** One row of the table after loading. `seed` is the raw text of the
      Seed column, `None` where the cell is empty; `delta` is the
      "Placement-Seed Delta" column. */
  datatype Record = Record(
    wrestler: string,
    school: string,
    year: int,
    weight: int,
    place: int,
    seed: Option<string>,
    elig: Elig,
    delta: int)

  type Table = seq<Record>

  // ---------------------------------------------------------------------
  // Grouping by wrestler

  /** `df[df["Wrestler"] == w]`: the wrestler's rows, in table order. */
  function RowsOf(t: Table, w: string): (r: Table)
    ensures |r| <= |t|
    ensures forall x | x in r :: x in t && x.wrestler == w
    ensures forall x | x in t && x.wrestler == w :: x in r
  {
    if t == [] then []
    else
      var init := RowsOf(t[..|t| - 1], w);
      if t[|t| - 1].wrestler == w then init + [t[|t| - 1]] else init
  }

  /** Some row is of class e. */
  predicate HasClass(rows: Table, e: Elig) {
    exists x :: x in rows && x.elig == e
  }

  /** A sequence without repeated elements. */
  predicate Distinct<T(==)>(s: seq<T>) {
    forall i, j | 0 <= i < j < |s| :: s[i] != s[j]
  }

  /** The elements of s that satisfy p, in order and with their repeats. */
  function Filter<T>(s: seq<T>, p: T -> bool): (r: seq<T>)
    ensures |r| <= |s|
    ensures forall k | 0 <= k < |r| :: p(r[k])
  {
    if s == [] then [] else Filter(s[..|s| - 1], p) + (if p(s[|s| - 1]) then [s[|s| - 1]] else [])
  }

  /** Filtering commutes with concatenation. */
  lemma {:induction false} FilterConcat<T>(a: seq<T>, b: seq<T>, p: T -> bool)
    ensures Filter(a + b, p) == Filter(a, p) + Filter(b, p)
    decreases |b|
  {
    if b == [] {
      assert a + b == a;
    } else {
      var init := b[..|b| - 1];
      assert (a + b)[..|a + b| - 1] == a + init;
      FilterConcat(a, init, p);
    }
  }

  /** Every element satisfying p keeps all its copies; every other element
      keeps none. */
  lemma {:induction false} FilterCount<T>(s: seq<T>, p: T -> bool, x: T)
    ensures multiset(Filter(s, p))[x] == if p(x) then multiset(s)[x] else 0
  {
    if s != [] {
      var init := s[..|s| - 1];
      assert s == init + [s[|s| - 1]];
      FilterCount(init, p, x);
    }
  }

  /** Two tests that agree on the elements of s select the same elements. */
  lemma {:induction false} FilterAgree<T>(s: seq<T>, p: T -> bool, q: T -> bool)
    requires forall k | 0 <= k < |s| :: p(s[k]) == q(s[k])
    ensures Filter(s, p) == Filter(s, q)
  {
    if s != [] {
      FilterAgree(s[..|s| - 1], p, q);
    }
  }

  /** Filtering keeps the elements of a sequence without repeats apart. */
  lemma {:induction false} FilterDistinct<T>(s: seq<T>, p: T -> bool)
    requires Distinct(s)
    ensures Distinct(Filter(s, p))
  {
    if s != [] {
      var init, x := s[..|s| - 1], s[|s| - 1];
      assert Distinct(init) by {
        forall i, j | 0 <= i < j < |init| ensures init[i] != init[j] {
          assert init[i] == s[i] && init[j] == s[j];
        }
      }
      FilterDistinct(init, p);
      var f := Filter(init, p);
      FilterCount(init, p, x);
      assert x !in init by {
        forall k | 0 <= k < |init| ensures init[k] != x {
          assert init[k] == s[k];
        }
      }
      assert x !in f;
    }
  }

  /** The test `df["Wrestler"] == w`. */
  function OfWrestler(w: string): Record -> bool {
    (x: Record) => x.wrestler == w
  }

  /** `RowsOf` is the order-keeping filter on the wrestler's name. */
  lemma {:induction false} RowsOfIsFilter(t: Table, w: string)
    ensures RowsOf(t, w) == Filter(t, OfWrestler(w))
  {
    if t != [] {
      RowsOfIsFilter(t[..|t| - 1], w);
    }
  }

  /** `list.index(x)`: the first position holding x. */
  function IndexOf<T(==)>(s: seq<T>, x: T): (k: nat)
    requires x in s
    ensures k < |s| && s[k] == x
    ensures forall i | 0 <= i < k :: s[i] != x
  {
    if s[0] == x then 0 else 1 + IndexOf(s[1..], x)
  }

  /** Appending does not move the first position of an element already present. */
  lemma IndexOfAppend<T>(s: seq<T>, y: T, x: T)
    requires x in s
    ensures IndexOf(s + [y], x) == IndexOf(s, x)
  {
    assert (s + [y])[IndexOf(s, x)] == x;
  }

  function Names(t: Table): (r: seq<string>)
    ensures |r| == |t|
    ensures forall k | 0 <= k < |t| :: r[k] == t[k].wrestler
  {
    if t == [] then [] else Names(t[..|t| - 1]) + [t[|t| - 1].wrestler]
  }

  /** The elements of s, each once, in order of first occurrence (`unique()`). */
  function Dedup<T(==)>(s: seq<T>): (r: seq<T>)
    ensures Distinct(r)
    ensures forall x | x in r :: x in s
    ensures forall x | x in s :: x in r
    ensures |r| <= |s|
  {
    if s == [] then []
    else
      var init := Dedup(s[..|s| - 1]);
      assert forall x | x in s :: x in s[..|s| - 1] || x == s[|s| - 1];
      if s[|s| - 1] in init then init else init + [s[|s| - 1]]
  }

  /** `unique()` keeps order of first occurrence: of two kept elements, the
      earlier one first occurs earlier in s. */
  lemma {:induction false} DedupInFirstOrder<T>(s: seq<T>)
    ensures forall i, j | 0 <= i < j < |Dedup(s)| :: IndexOf(s, Dedup(s)[i]) < IndexOf(s, Dedup(s)[j])
  {
    if s != [] {
      var init, x := s[..|s| - 1], s[|s| - 1];
      assert s == init + [x];
      DedupInFirstOrder(init);
      var d := Dedup(init);
      forall y | y in d ensures IndexOf(s, y) == IndexOf(init, y) {
        IndexOfAppend(init, x, y);
      }
      if x !in d {
        assert IndexOf(s, x) == |init|;
      }
    }
  }

  /** De-duplicating loses nothing exactly when there was nothing to lose. */
  lemma {:induction false} DedupFull<T>(s: seq<T>)
    ensures |Dedup(s)| == |s| <==> Distinct(s)
  {
    if s != [] {
      var init, x := s[..|s| - 1], s[|s| - 1];
      DedupFull(init);
      assert Distinct(s) ==> Distinct(init) by {
        if Distinct(s) {
          forall i, j | 0 <= i < j < |init| ensures init[i] != init[j] {
            assert init[i] == s[i] && init[j] == s[j];
          }
        }
      }
      if Distinct(s) {
        forall k | 0 <= k < |init| ensures init[k] != x {
          assert init[k] == s[k];
        }
      } else if Distinct(init) {
        var i, j :| 0 <= i < j < |s| && s[i] == s[j];
        forall i', j' | 0 <= i' < j' < |init| ensures s[i'] != s[j'] {
          assert init[i'] == s[i'] && init[j'] == s[j'];
        }
        assert j == |s| - 1;
        assert init[i] == x;
      }
    }
  }

  lemma {:induction false} DistinctCount<T>(s: seq<T>, x: T)
    requires Distinct(s)
    ensures multiset(s)[x] <= 1
  {
    if s != [] {
      var init := s[..|s| - 1];
      assert s == init + [s[|s| - 1]];
      assert Distinct(init) by {
        forall i, j | 0 <= i < j < |init| ensures init[i] != init[j] {
          assert init[i] == s[i] && init[j] == s[j];
        }
      }
      DistinctCount(init, x);
      if x == s[|s| - 1] {
        forall k | 0 <= k < |init| ensures init[k] != x {
          assert init[k] == s[k];
        }
      }
    }
  }

  /** A rearrangement of a sequence without repeats has none either. */
  lemma DistinctPermutation<T>(a: seq<T>, b: seq<T>)
    requires Distinct(a) && multiset(a) == multiset(b)
    ensures Distinct(b)
  {
    forall i, j | 0 <= i < j < |b| ensures b[i] != b[j] {
      if b[i] == b[j] {
        var x := b[i];
        assert b == b[..j] + b[j..];
        assert x in b[..j] && x in b[j..];
        assert multiset(b)[x] == multiset(b[..j])[x] + multiset(b[j..])[x];
        DistinctCount(a, x);
      }
    }
  }

  /** `df["Wrestler"].unique()`: each wrestler once, in order of first row. */
  function Wrestlers(t: Table): (r: seq<string>)
    ensures Distinct(r)
    ensures forall w :: w in r <==> exists x :: x in t && x.wrestler == w
  {
    var names := Names(t);
    assert forall w :: w in names <==> exists x :: x in t && x.wrestler == w by {
      forall w ensures w in names <==> exists x :: x in t && x.wrestler == w {
        if w in names {
          var k :| 0 <= k < |names| && names[k] == w;
          assert t[k] in t;
        }
        if exists x :: x in t && x.wrestler == w {
          var x :| x in t && x.wrestler == w;
          var k :| 0 <= k < |t| && t[k] == x;
          assert names[k] == w;
        }
      }
    }
    Dedup(names)
  }

  /** Every wrestler listed has at least one row. */
  lemma WrestlerHasRows(t: Table, w: string)
    requires w in Wrestlers(t)
    ensures |RowsOf(t, w)| >= 1
  {
    var x :| x in t && x.wrestler == w;
    assert x in RowsOf(t, w);
  }

  /** The wrestlers come in the order of their first rows. */
  lemma WrestlersInFirstRowOrder(t: Table)
    ensures forall w | w in Wrestlers(t) :: w in Names(t)
    ensures forall i, j | 0 <= i < j < |Wrestlers(t)| ::
      IndexOf(Names(t), Wrestlers(t)[i]) < IndexOf(Names(t), Wrestlers(t)[j])
  {
    DedupInFirstOrder(Names(t));
  }

  // ---------------------------------------------------------------------
  // Stable sorting by an integer key (`sort_values`)

  predicate SortedBy<T>(s: seq<T>, key: T -> int) {
    forall i, j | 0 <= i < j < |s| :: key(s[i]) <= key(s[j])
  }

  /** The elements of s whose key is k, in their order in s. */
  function WithKey<T>(s: seq<T>, key: T -> int, k: int): seq<T>
  {
    if s == [] then []
    else
      var init := WithKey(s[..|s| - 1], key, k);
      if key(s[|s| - 1]) == k then init + [s[|s| - 1]] else init
  }

  /** Inserts x into s after the trailing elements whose key exceeds x's
      (in a sorted s: after every element whose key is at most x's). */
  function Insert<T>(s: seq<T>, x: T, key: T -> int): (r: seq<T>)
    ensures multiset(r) == multiset(s) + multiset{x}
    ensures |r| == |s| + 1
  {
    if s == [] || key(s[|s| - 1]) <= key(x) then s + [x]
    else
      assert s == s[..|s| - 1] + [s[|s| - 1]];
      Insert(s[..|s| - 1], x, key) + [s[|s| - 1]]
  }

  lemma {:induction false} InsertSorted<T>(s: seq<T>, x: T, key: T -> int)
    requires SortedBy(s, key)
    ensures SortedBy(Insert(s, x, key), key)
  {
    if s != [] && key(s[|s| - 1]) > key(x) {
      var init, last := s[..|s| - 1], s[|s| - 1];
      assert s == init + [last];
      InsertSorted(init, x, key);
      var mid := Insert(init, x, key);
      forall i | 0 <= i < |mid| ensures key(mid[i]) <= key(last) {
        assert mid[i] in multiset(mid);
        assert mid[i] in multiset(init) + multiset{x};
        if mid[i] != x {
          assert mid[i] in init;
        }
      }
    }
  }

  /** A stable sort: the result is ordered by key and, key by key, lists
      the same elements in the same order as the input. */
  function SortBy<T>(s: seq<T>, key: T -> int): (r: seq<T>)
    ensures SortedBy(r, key)
    ensures multiset(r) == multiset(s)
    ensures |r| == |s|
  {
    if s == [] then []
    else
      assert s == s[..|s| - 1] + [s[|s| - 1]];
      var sorted := SortBy(s[..|s| - 1], key);
      InsertSorted(sorted, s[|s| - 1], key);
      Insert(sorted, s[|s| - 1], key)
  }

  lemma WithKeyAppend<T>(s: seq<T>, x: T, key: T -> int, k: int)
    ensures WithKey(s + [x], key, k) == WithKey(s, key, k) + (if key(x) == k then [x] else [])
  {
    assert (s + [x])[..|s|] == s;
  }

  lemma {:induction false} WithKeyInsert<T>(s: seq<T>, x: T, key: T -> int, k: int)
    requires SortedBy(s, key)
    ensures WithKey(Insert(s, x, key), key, k) == WithKey(s, key, k) + (if key(x) == k then [x] else [])
  {
    if s == [] || key(s[|s| - 1]) <= key(x) {
      WithKeyAppend(s, x, key, k);
    } else {
      var init, last := s[..|s| - 1], s[|s| - 1];
      assert s == init + [last];
      WithKeyInsert(init, x, key, k);
      WithKeyAppend(Insert(init, x, key), last, key, k);
      WithKeyAppend(init, last, key, k);
    }
  }

  /** Stability: sorting keeps the relative order of elements with equal keys. */
  lemma {:induction false} SortByStable<T>(s: seq<T>, key: T -> int, k: int)
    ensures WithKey(SortBy(s, key), key, k) == WithKey(s, key, k)
  {
    if s != [] {
      var init := s[..|s| - 1];
      SortByStable(init, key, k);
      WithKeyInsert(SortBy(init, key), s[|s| - 1], key, k);
      assert s == init + [s[|s| - 1]];
      WithKeyAppend(init, s[|s| - 1], key, k);
    }
  }

  lemma {:induction false} WithKeyMembers<T>(s: seq<T>, key: T -> int, k: int)
    ensures forall x :: x in WithKey(s, key, k) <==> x in s && key(x) == k
  {
    if s != [] {
      WithKeyMembers(s[..|s| - 1], key, k);
      assert s == s[..|s| - 1] + [s[|s| - 1]];
    }
  }

  lemma WithKeyElement<T>(s: seq<T>, key: T -> int, k: int, i: int)
    requires 0 <= i < |WithKey(s, key, k)|
    ensures WithKey(s, key, k)[i] in s
  {
    WithKeyMembers(s, key, k);
    var w := WithKey(s, key, k);
    assert w[i] in w;
  }

  /** Picking out the elements of one key keeps an order by another key. */
  lemma {:induction false} WithKeySorted<T>(s: seq<T>, key: T -> int, k: int, other: T -> int)
    requires SortedBy(s, other)
    ensures SortedBy(WithKey(s, key, k), other)
  {
    if s != [] {
      var init, x := s[..|s| - 1], s[|s| - 1];
      WithKeySorted(init, key, k, other);
      WithKeyMembers(init, key, k);
      var w := WithKey(init, key, k);
      forall i | 0 <= i < |w| ensures other(w[i]) <= other(x) {
        WithKeyElement(init, key, k, i);
        var m :| 0 <= m < |init| && init[m] == w[i];
        assert s[m] == w[i];
      }
    }
  }

  /** Two elements of one key keep their relative order among the
      elements of that key. */
  lemma {:induction false} WithKeyPositions<T>(s: seq<T>, key: T -> int, i: int, j: int)
    requires 0 <= i < j < |s| && key(s[i]) == key(s[j])
    ensures exists i', j' :: 0 <= i' < j' < |WithKey(s, key, key(s[i]))|
              && WithKey(s, key, key(s[i]))[i'] == s[i] && WithKey(s, key, key(s[i]))[j'] == s[j]
  {
    var init, k := s[..|s| - 1], key(s[i]);
    var w := WithKey(init, key, k);
    if j == |s| - 1 {
      WithKeyMembers(init, key, k);
      assert s[i] == init[i];
      assert s[i] in w;
      var i' :| 0 <= i' < |w| && w[i'] == s[i];
      assert WithKey(s, key, k) == w + [s[j]];
      assert WithKey(s, key, k)[i'] == s[i] && WithKey(s, key, k)[|w|] == s[j];
    } else {
      assert s[i] == init[i] && s[j] == init[j];
      WithKeyPositions(init, key, i, j);
      var i', j' :| 0 <= i' < j' < |w| && w[i'] == s[i] && w[j'] == s[j];
      var ws := WithKey(s, key, k);
      assert ws == w || ws == w + [s[|s| - 1]];
      assert ws[i'] == s[i] && ws[j'] == s[j];
    }
  }

  /** Sorting by `minor` and then, stably, by `major` orders by the pair
      (major, minor). */
  lemma SortTwice<T>(s: seq<T>, major: T -> int, minor: T -> int, i: int, j: int)
    requires 0 <= i < j < |SortBy(SortBy(s, minor), major)|
    ensures var r := SortBy(SortBy(s, minor), major);
            major(r[i]) < major(r[j]) || (major(r[i]) == major(r[j]) && minor(r[i]) <= minor(r[j]))
  {
    var s1 := SortBy(s, minor);
    var r := SortBy(s1, major);
    if major(r[i]) == major(r[j]) {
      var k := major(r[i]);
      WithKeyPositions(r, major, i, j);
      SortByStable(s1, major, k);
      WithKeySorted(s1, major, k, minor);
      var w := WithKey(r, major, k);
      var i', j' :| 0 <= i' < j' < |w| && w[i'] == r[i] && w[j'] == r[j];
    }
  }

  /** Two keys that order the elements of s alike sort s alike. */
  lemma {:induction false} SortBySameOrder<T>(s: seq<T>, k1: T -> int, k2: T -> int)
    requires forall x, y | x in s && y in s :: k1(x) <= k1(y) <==> k2(x) <= k2(y)
    ensures SortBy(s, k1) == SortBy(s, k2)
  {
    if s != [] {
      var init, x := s[..|s| - 1], s[|s| - 1];
      assert s == init + [x];
      SortBySameOrder(init, k1, k2);
      var sorted := SortBy(init, k1);
      assert forall y | y in sorted :: y in init by {
        forall y | y in sorted ensures y in init {
          assert y in multiset(sorted);
        }
      }
      InsertSameOrder(sorted, x, k1, k2);
    }
  }

  lemma {:induction false} InsertSameOrder<T>(s: seq<T>, x: T, k1: T -> int, k2: T -> int)
    requires forall y | y in s :: k1(y) <= k1(x) <==> k2(y) <= k2(x)
    ensures Insert(s, x, k1) == Insert(s, x, k2)
  {
    if s != [] && k1(s[|s| - 1]) > k1(x) {
      InsertSameOrder(s[..|s| - 1], x, k1, k2);
    }
  }

  // ---------------------------------------------------------------------
  // Chronological order of a career

  /** `_order = Year * 10 + elig_sort_key[Eligibility Year]`. */
  function ChronoKey(r: Record): int {
    r.year * 10 + Rank(r.elig)
  }

  /** The sort key `_order` orders records exactly as the pair
      (year, eligibility rank) does lexicographically, and two records tie
      on it exactly when they share year and class; so the secondary sort
      columns "Year" and "Eligibility Year" never decide anything. */
  lemma ChronoKeyIsLexicographic(a: Record, b: Record)
    ensures ChronoKey(a) <= ChronoKey(b)
            <==> a.year < b.year || (a.year == b.year && Rank(a.elig) <= Rank(b.elig))
    ensures ChronoKey(a) == ChronoKey(b) <==> a.year == b.year && a.elig == b.elig
  {
  }

  /** `w_df.sort_values(["_order", "Year", "Eligibility Year"])`. */
  function Chronological(rows: Table): (r: Table)
    ensures |r| == |rows|
    ensures multiset(r) == multiset(rows)
  {
    SortBy(rows, ChronoKey)
  }

  /** The ordering invariant of a career: (year, class) never goes back. */
  lemma ChronologicalOrdered(rows: Table, i: int, j: int)
    requires 0 <= i < j < |rows|
    ensures var c := Chronological(rows);
            c[i].year < c[j].year || (c[i].year == c[j].year && Rank(c[i].elig) <= Rank(c[j].elig))
  {
    var c := Chronological(rows);
    assert ChronoKey(c[i]) <= ChronoKey(c[j]);
    ChronoKeyIsLexicographic(c[i], c[j]);
  }

  /** `w_df["Place"].tolist()`. */
  function Places(rows: Table): (r: seq<int>)
    ensures |r| == |rows|
    ensures forall k | 0 <= k < |rows| :: r[k] == rows[k].place
  {
    if rows == [] then [] else Places(rows[..|rows| - 1]) + [rows[|rows| - 1].place]
  }

  /** One wrestler's career: its rows in chronological order. */
  datatype Career = Career(wrestler: string, rows: Table)

  function CareerOf(t: Table, w: string): Career {
    Career(w, Chronological(RowsOf(t, w)))
  }

  /** The per-wrestler iteration `for wrestler in df["Wrestler"].unique()`. */
  function Careers(t: Table): (r: seq<Career>)
    ensures |r| == |Wrestlers(t)|
    ensures forall k | 0 <= k < |r| :: r[k] == CareerOf(t, Wrestlers(t)[k])
    ensures forall c | c in r :: c.wrestler in Names(t)
    ensures forall i, j | 0 <= i < j < |r| ::
      IndexOf(Names(t), r[i].wrestler) < IndexOf(Names(t), r[j].wrestler)
  {
    var ws := Wrestlers(t);
    WrestlersInFirstRowOrder(t);
    seq(|ws|, k requires 0 <= k < |ws| => CareerOf(t, ws[k]))
  }
}
