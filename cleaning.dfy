/** Loading the raw table: the eligibility column is normalised, the year
    range and the places are validated (a violation aborts the analysis),
    and rows whose eligibility is still not one of the five classes are
    dropped. */
module Cleaning {
  import opened Results
  import opened Text
  import opened Records

  /** A row as read from the CSV file, after the integer conversions;
      `elig` is `None` for an empty eligibility cell. */
  datatype RawRecord = RawRecord(
    wrestler: string,
    school: string,
    year: int,
    weight: int,
    place: int,
    seed: Option<string>,
    elig: Option<string>,
    delta: int)

  /** The validation assertion that fails. */
  datatype LoadError = BadMinYear | BadMaxYear | BadPlace

  const FirstYear := 1999
  const LastYear := 2025

  /** `.str.strip().str.title()` followed by `.replace({"Ssr": "SSr"})`. */
  function NormalizeElig(s: string): string {
    var t := Title(Strip(s));
    if t == "Ssr" then "SSr" else t
  }

  /** The class named by a normalised eligibility value, if it is one. */
  function ParseElig(s: string): (r: Option<Elig>)
    ensures r.Some? ==> EligName(r.value) == s
    ensures forall e :: EligName(e) == s ==> r == Some(e)
  {
    if s == "Fr" then Some(Fr)
    else if s == "So" then Some(So)
    else if s == "Jr" then Some(Jr)
    else if s == "Sr" then Some(Sr)
    else if s == "SSr" then Some(SSr)
    else None
  }

  /** The canonical class names are left alone by normalisation. */
  lemma CanonicalNamesFixed(e: Elig)
    ensures NormalizeElig(EligName(e)) == EligName(e)
    ensures ParseElig(NormalizeElig(EligName(e))) == Some(e)
  {
    var n := EligName(e);
    StripUnpadded(n);
    TitleAt(n, 0);
    TitleAt(n, 1);
    if e == SSr {
      TitleAt(n, 2);
      assert Title(n) == "Ssr";
    }
  }

  /** Normalising twice is normalising once. */
  lemma NormalizeIdempotent(s: string)
    ensures NormalizeElig(NormalizeElig(s)) == NormalizeElig(s)
  {
    var u := Strip(s);
    var t := Title(u);
    if t == "Ssr" {
      CanonicalNamesFixed(SSr);
    } else {
      TitleKeepsSpaces(u);
      StripUnpadded(t);
      TitleIdempotent(u);
    }
  }

  lemma LowerOfTitle(u: string)
    ensures Lower(Title(u)) == Lower(u)
  {
    forall k | 0 <= k < |u| ensures Lower(Title(u))[k] == Lower(u)[k] {
      TitleAt(u, k);
    }
  }

  /** Title-casing depends only on the lower-cased text. */
  lemma TitleOfSameLower(u: string, v: string)
    requires Lower(u) == Lower(v)
    ensures Title(u) == Title(v)
  {
    assert |u| == |v|;
    forall k | 0 <= k < |u| ensures Title(u)[k] == Title(v)[k] {
      TitleAt(u, k);
      TitleAt(v, k);
      assert ToLower(u[k]) == ToLower(v[k]);
      if k > 0 {
        assert ToLower(u[k - 1]) == ToLower(v[k - 1]);
      }
    }
  }

  lemma LowerSsr()
    ensures Lower("Ssr") == Lower("SSr")
  {
    assert Lower("Ssr") == "ssr";
    assert Lower("SSr") == "ssr";
  }

  lemma NormalizeAcceptsOnly(s: string, e: Elig)
    requires ParseElig(NormalizeElig(s)) == Some(e)
    ensures Lower(Strip(s)) == Lower(EligName(e))
  {
    var u := Strip(s);
    LowerOfTitle(u);
    if Title(u) == "Ssr" {
      LowerSsr();
    }
  }

  lemma NormalizeAcceptsAll(s: string, e: Elig)
    requires Lower(Strip(s)) == Lower(EligName(e))
    ensures ParseElig(NormalizeElig(s)) == Some(e)
  {
    var n := EligName(e);
    TitleOfSameLower(Strip(s), n);
    CanonicalNamesFixed(e);
    StripUnpadded(n);
    assert NormalizeElig(s) == NormalizeElig(n);
  }

  /** What normalisation accepts, stated independently: a raw value names
      class e exactly when, stripped of surrounding whitespace, it spells
      e's name in any mix of upper and lower case. */
  lemma NormalizeAccepts(s: string, e: Elig)
    ensures ParseElig(NormalizeElig(s)) == Some(e) <==> Lower(Strip(s)) == Lower(EligName(e))
  {
    if ParseElig(NormalizeElig(s)) == Some(e) {
      NormalizeAcceptsOnly(s, e);
    }
    if Lower(Strip(s)) == Lower(EligName(e)) {
      NormalizeAcceptsAll(s, e);
    }
  }

  /** Normalisation examples: stray whitespace and any casing are repaired,
      anything else is no class. */
  lemma NormalizePaddedLower()
    ensures ParseElig(NormalizeElig(" ssr ")) == Some(SSr)
  {
    assert " ssr "[1..] == "ssr ";
    assert "ssr "[..3] == "ssr";
    assert Strip(" ssr ") == "ssr";
    assert Lower("ssr") == "ssr";
    LowerSsr();
    NormalizeAcceptsAll(" ssr ", SSr);
  }

  lemma NormalizeAllUpper()
    ensures ParseElig(NormalizeElig("SSR")) == Some(SSr)
  {
    StripUnpadded("SSR");
    assert Lower("SSR") == "ssr";
    LowerSsr();
    NormalizeAcceptsAll("SSR", SSr);
  }

  lemma NormalizeMissing()
    ensures ParseElig(NormalizeElig("nan")) == None
  {
    StripUnpadded("nan");
    TitleAt("nan", 0);
    TitleAt("nan", 1);
    TitleAt("nan", 2);
    assert Title("nan") == "Nan";
  }

  /** The class a raw row ends up with, `None` if the row is dropped (an
      empty cell becomes the text "nan", which is no class). */
  function RowElig(x: RawRecord): (r: Option<Elig>)
    ensures x.elig.Some? && r.Some? ==> Lower(Strip(x.elig.value)) == Lower(EligName(r.value))
    ensures x.elig.Some? ==> forall e :: Lower(Strip(x.elig.value)) == Lower(EligName(e)) ==> r == Some(e)
  {
    match x.elig
    case None => None
    case Some(s) =>
      var r := ParseElig(NormalizeElig(s));
      assert r.Some? ==> Lower(Strip(s)) == Lower(EligName(r.value)) by {
        if r.Some? { NormalizeAccepts(s, r.value); }
      }
      assert forall e :: Lower(Strip(s)) == Lower(EligName(e)) ==> r == Some(e) by {
        forall e | Lower(Strip(s)) == Lower(EligName(e)) ensures r == Some(e) {
          NormalizeAccepts(s, e);
        }
      }
      r
  }

  function Convert(x: RawRecord, e: Elig): Record {
    Record(x.wrestler, x.school, x.year, x.weight, x.place, x.seed, e, x.delta)
  }

  /** `df[df["Eligibility Year"].isin(valid_eligibility)]`. */
  function KeepKnown(raw: seq<RawRecord>): (r: Table)
    ensures |r| <= |raw|
    ensures forall x | x in r :: exists y :: y in raw && RowElig(y) == Some(x.elig) && x == Convert(y, x.elig)
    ensures forall y | y in raw && RowElig(y).Some? :: Convert(y, RowElig(y).value) in r
  {
    if raw == [] then []
    else
      var init := KeepKnown(raw[..|raw| - 1]);
      var y := raw[|raw| - 1];
      assert forall z | z in raw :: z in raw[..|raw| - 1] || z == y;
      match RowElig(y)
      case None => init
      case Some(e) => init + [Convert(y, e)]
  }

  /** The test `isin(valid_eligibility)` after normalisation. */
  function Known(): RawRecord -> bool {
    (y: RawRecord) => RowElig(y).Some?
  }

  /** `KeepKnown` keeps exactly the rows whose class is known, in their
      order and with their repeats, each converted with its class. */
  lemma {:induction false} KeepKnownIsFilter(raw: seq<RawRecord>)
    ensures |KeepKnown(raw)| == |Filter(raw, Known())|
    ensures forall k | 0 <= k < |KeepKnown(raw)| ::
      RowElig(Filter(raw, Known())[k]).Some?
      && KeepKnown(raw)[k] == Convert(Filter(raw, Known())[k], RowElig(Filter(raw, Known())[k]).value)
  {
    if raw != [] {
      KeepKnownIsFilter(raw[..|raw| - 1]);
    }
  }

  function MinYear(raw: seq<RawRecord>): (m: int)
    requires |raw| > 0
    ensures forall y | y in raw :: m <= y.year
    ensures exists y :: y in raw && y.year == m
  {
    if |raw| == 1 then raw[0].year
    else
      var m := MinYear(raw[..|raw| - 1]);
      assert forall z | z in raw :: z in raw[..|raw| - 1] || z == raw[|raw| - 1];
      if raw[|raw| - 1].year < m then raw[|raw| - 1].year else m
  }

  function MaxYear(raw: seq<RawRecord>): (m: int)
    requires |raw| > 0
    ensures forall y | y in raw :: y.year <= m
    ensures exists y :: y in raw && y.year == m
  {
    if |raw| == 1 then raw[0].year
    else
      var m := MaxYear(raw[..|raw| - 1]);
      assert forall z | z in raw :: z in raw[..|raw| - 1] || z == raw[|raw| - 1];
      if raw[|raw| - 1].year > m then raw[|raw| - 1].year else m
  }

  /** Validation and filtering. The year assertions use the minimum and
      maximum of the whole column (of an empty column both are NaN, and
      the first assertion fails); the place check runs before rows with an
      unknown eligibility are dropped. */
  function Clean(raw: seq<RawRecord>): (r: Result<Table, LoadError>)
    ensures r.Ok? <==> |raw| > 0 && forall y | y in raw :: FirstYear <= y.year <= LastYear && 1 <= y.place <= 8
    ensures r == Err(BadMinYear) <==> |raw| == 0 || exists y :: y in raw && y.year < FirstYear
    ensures r.Ok? ==> forall x | x in r.value :: FirstYear <= x.year <= LastYear && 1 <= x.place <= 8
    ensures r.Ok? ==> |r.value| <= |raw|
    ensures r.Ok? ==> r.value == KeepKnown(raw)
  {
    if |raw| == 0 || MinYear(raw) < FirstYear then Err(BadMinYear)
    else if MaxYear(raw) > LastYear then Err(BadMaxYear)
    else if exists y :: y in raw && !(1 <= y.place <= 8) then Err(BadPlace)
    else Ok(KeepKnown(raw))
  }
}
