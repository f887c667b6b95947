/** The career-window filter: only wrestlers whose whole career can be
    seen inside the 1999..2025 data window, and whose career is over, are
    kept; a career is kept or dropped as a whole. */
module CareerWindow {
  import opened Records

  /** `CAREER_WINDOW`. */
  const WindowFirst := 1999
  const WindowLast := 2025

  /** `ELIG_YEAR_BOUNDS`: the closed range of seasons in which a record of
      class e is accepted. */
  function Bounds(e: Elig): (int, int) {
    match e
    case Fr => (WindowFirst + 1, WindowLast - 3)
    case So => (WindowFirst + 2, WindowLast - 2)
    case Jr => (WindowFirst + 3, WindowLast - 1)
    case Sr => (WindowFirst + 4, WindowLast)
    case SSr => (WindowFirst + 5, WindowLast)
  }

  predicate InBounds(e: Elig, year: int) {
    Bounds(e).0 <= year <= Bounds(e).1
  }

  /** Seasons still to come, after one of class e, up to the senior season. */
  function SeasonsLeft(e: Elig): nat {
    if e == SSr then 0 else 3 - Rank(e)
  }

  /** The rule the bounds table encodes: a season of class e in year y is in
      bounds exactly when the season Rank(e) + 1 years earlier is inside the
      window and so is the senior season still to come. */
  lemma BoundsRule(e: Elig, y: int)
    ensures InBounds(e, y) <==> y - (Rank(e) + 1) >= WindowFirst && y + SeasonsLeft(e) <= WindowLast
  {
  }

  predicate FullyInWindow(rows: Table) {
    forall k | 0 <= k < |rows| :: InBounds(rows[k].elig, rows[k].year)
  }

  /** `career_fully_in_window`: scans the rows, answering false at the first
      one outside its class's bounds. */
  method CareerFullyInWindow(rows: Table) returns (ok: bool)
    ensures ok <==> FullyInWindow(rows)
    ensures !ok ==> exists x :: x in rows && !InBounds(x.elig, x.year)
  {
    for i := 0 to |rows|
      invariant forall k | 0 <= k < i :: InBounds(rows[k].elig, rows[k].year)
    {
      if !InBounds(rows[i].elig, rows[i].year) {
        return false;
      }
    }
    return true;
  }

  /** `groupby("Wrestler")["Year"].idxmax()`: the first of the rows with
      the greatest year. */
  function LatestIndex(rows: Table): (k: nat)
    requires |rows| > 0
    ensures k < |rows|
    ensures forall i | 0 <= i < |rows| :: rows[i].year <= rows[k].year
    ensures forall i | 0 <= i < k :: rows[i].year < rows[k].year
  {
    if |rows| == 1 then 0
    else
      var k := LatestIndex(rows[..|rows| - 1]);
      if rows[|rows| - 1].year > rows[k].year then |rows| - 1 else k
  }

  /** `career_is_complete`, applied to the latest record of a career. */
  predicate IsComplete(latest: Record) {
    if latest.elig == SSr then true
    else if latest.elig == Sr then true
    else if latest.elig == Jr && latest.year <= 2022 then true
    else if latest.elig == So && latest.year <= 2021 then true
    else if latest.elig == Fr && latest.year <= 2020 then true
    else false
  }

  /** The rule behind `career_is_complete`: a career whose latest record is
      Sr or SSr is complete; otherwise it is complete exactly when its
      senior season would have come in 2023 or earlier. */
  lemma IsCompleteRule(latest: Record)
    ensures IsComplete(latest)
            <==> latest.elig in {Sr, SSr} || latest.year + SeasonsLeft(latest.elig) <= 2023
  {
  }

  /** Whether wrestler w appears in `valid_wrestlers`. */
  predicate KeepCareer(t: Table, w: string) {
    var rows := RowsOf(t, w);
    |rows| > 0 && IsComplete(rows[LatestIndex(rows)]) && FullyInWindow(rows)
  }

  /** `valid_wrestlers`. */
  function ValidWrestlers(t: Table): (r: seq<string>)
    ensures Distinct(r)
    ensures forall w :: w in r <==> w in Wrestlers(t) && KeepCareer(t, w)
  {
    var ws := Wrestlers(t);
    KeepWrestlers(t, ws)
  }

  function KeepWrestlers(t: Table, ws: seq<string>): (r: seq<string>)
    requires Distinct(ws)
    ensures |r| <= |ws|
    ensures Distinct(r)
    ensures forall w :: w in r <==> w in ws && KeepCareer(t, w)
  {
    if ws == [] then []
    else
      var init := KeepWrestlers(t, ws[..|ws| - 1]);
      assert forall w :: w in ws <==> w in ws[..|ws| - 1] || w == ws[|ws| - 1];
      if KeepCareer(t, ws[|ws| - 1]) then init + [ws[|ws| - 1]] else init
  }

  /** The rows of s whose wrestler's career, judged on all of t, is kept. */
  function KeepRows(t: Table, s: Table): (r: Table)
    ensures multiset(r) <= multiset(s)
    ensures forall x | x in r :: KeepCareer(t, x.wrestler)
  {
    if s == [] then []
    else
      var init := KeepRows(t, s[..|s| - 1]);
      assert s == s[..|s| - 1] + [s[|s| - 1]];
      if KeepCareer(t, s[|s| - 1].wrestler) then init + [s[|s| - 1]] else init
  }

  /** `df_filtered = df[df["Wrestler"].isin(valid_wrestlers)]`. */
  function FilterCareers(t: Table): (r: Table)
    ensures multiset(r) <= multiset(t)
    ensures |r| <= |t|
  {
    var r := KeepRows(t, t);
    assert |multiset(r)| <= |multiset(t)| by {
      assert multiset(t) == multiset(r) + (multiset(t) - multiset(r));
    }
    r
  }

  /** The test `df["Wrestler"].isin(valid_wrestlers)`. */
  function InKeptCareer(t: Table): Record -> bool {
    (x: Record) => KeepCareer(t, x.wrestler)
  }

  /** `KeepRows` is the order-keeping filter on the kept careers. */
  lemma {:induction false} KeepRowsIsFilter(t: Table, s: Table)
    ensures KeepRows(t, s) == Filter(s, InKeptCareer(t))
  {
    if s != [] {
      KeepRowsIsFilter(t, s[..|s| - 1]);
    }
  }

  /** `df_filtered` is the table's rows of kept careers, in table order
      and with their repeats. */
  lemma FilterCareersIsFilter(t: Table)
    ensures FilterCareers(t) == Filter(t, InKeptCareer(t))
  {
    KeepRowsIsFilter(t, t);
  }

  lemma RowsOfAppend(s: Table, x: Record, w: string)
    ensures RowsOf(s + [x], w) == RowsOf(s, w) + (if x.wrestler == w then [x] else [])
  {
    assert (s + [x])[..|s|] == s;
  }

  lemma {:induction false} KeepRowsOf(t: Table, s: Table, w: string)
    ensures RowsOf(KeepRows(t, s), w) == if KeepCareer(t, w) then RowsOf(s, w) else []
  {
    if s != [] {
      var init, x := s[..|s| - 1], s[|s| - 1];
      assert s == init + [x];
      KeepRowsOf(t, init, w);
      RowsOfAppend(init, x, w);
      if KeepCareer(t, x.wrestler) {
        RowsOfAppend(KeepRows(t, init), x, w);
      }
    }
  }

  /** Filtering works on whole careers: a kept wrestler keeps every row, in
      order, and a dropped wrestler loses every row. */
  lemma FilterKeepsWholeCareers(t: Table, w: string)
    ensures RowsOf(FilterCareers(t), w) == if KeepCareer(t, w) then RowsOf(t, w) else []
  {
    KeepRowsOf(t, t, w);
  }

  /** The wrestlers left after filtering are exactly the valid ones. */
  lemma FilteredWrestlers(t: Table, w: string)
    ensures w in Wrestlers(FilterCareers(t)) <==> w in ValidWrestlers(t)
  {
    FilterKeepsWholeCareers(t, w);
    if w in ValidWrestlers(t) {
      WrestlerHasRows(t, w);
      var x := RowsOf(t, w)[0];
      assert x in RowsOf(FilterCareers(t), w);
    }
    if w in Wrestlers(FilterCareers(t)) {
      WrestlerHasRows(FilterCareers(t), w);
      var x := RowsOf(FilterCareers(t), w)[0];
      assert x in t;
    }
  }

  /** A single record outside its class's bounds removes the whole career
      (the case of a sophomore season in 2000). */
  lemma OutOfBoundsDropsCareer(t: Table, x: Record)
    requires x in t && !InBounds(x.elig, x.year)
    ensures RowsOf(FilterCareers(t), x.wrestler) == []
  {
    FilterKeepsWholeCareers(t, x.wrestler);
    var rows := RowsOf(t, x.wrestler);
    assert x in rows;
    var k :| 0 <= k < |rows| && rows[k] == x;
  }

  /** Every record that survives the filter is in bounds, and its career's
      latest record is complete. */
  lemma FilteredRowsValid(t: Table, x: Record)
    requires x in FilterCareers(t)
    ensures InBounds(x.elig, x.year)
    ensures var rows := RowsOf(FilterCareers(t), x.wrestler);
            |rows| > 0 && IsComplete(rows[LatestIndex(rows)])
  {
    FilterKeepsWholeCareers(t, x.wrestler);
    var rows := RowsOf(t, x.wrestler);
    assert x in t by {
      assert x in multiset(FilterCareers(t));
    }
    assert x in rows;
    var k :| 0 <= k < |rows| && rows[k] == x;
  }
}
