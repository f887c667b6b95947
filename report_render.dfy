/** The report template check: looking a dotted path up in the parsed
    statistics, and replacing each `{{ site.data.report_stats.a.b.c }}`
    placeholder of the report with the text of the value it names. */
module ReportRender {
  import opened Results
  import opened Text

  // ---------------------------------------------------------------------
  // Parsed JSON and path lookup

  /** A value of the parsed statistics file. */
  datatype Json =
    | JNull
    | JBool(b: bool)
    | JInt(i: int)
    | JStr(s: string)
    | JList(items: seq<Json>)
    | JObject(fields: map<string, Json>)

  /** Why `data[key]` raised: a missing key of an object, or subscripting
      a value that is not an object with a string. */
  datatype LookupError = KeyError(key: string) | TypeError(key: string)

  /** `data[key]` for a string key. */
  function Step(d: Json, key: string): (r: Result<Json, LookupError>)
    ensures r.Ok? <==> d.JObject? && key in d.fields
    ensures r.Ok? ==> r.value == d.fields[key]
    ensures r.Err? ==> r.error == (if d.JObject? then KeyError(key) else TypeError(key))
  {
    match d
    case JObject(fields) => if key in fields then Ok(fields[key]) else Err(KeyError(key))
    case _ => Err(TypeError(key))
  }

  /** The value at `path`, one key at a time from the left. */
  function Lookup(d: Json, path: seq<string>): Result<Json, LookupError>
    decreases |path|
  {
    if path == [] then Ok(d)
    else
      match Step(d, path[0])
      case Err(e) => Err(e)
      case Ok(v) => Lookup(v, path[1..])
  }

  /** `get_nested(data, path)`: the loop that rebinds `data` to each
      successive sub-value. */
  method GetNested(data: Json, path: seq<string>) returns (r: Result<Json, LookupError>)
    ensures r == Lookup(data, path)
  {
    var cur := data;
    for i := 0 to |path|
      invariant Lookup(data, path) == Lookup(cur, path[i..])
    {
      assert path[i..][0] == path[i] && path[i..][1..] == path[i + 1..];
      var next := Step(cur, path[i]);
      if next.Err? {
        return Err(next.error);
      }
      cur := next.value;
    }
    assert path[|path|..] == [];
    return Ok(cur);
  }

  /** The empty path gives the value back, and a lookup along p + q is the
      lookup along q from where p leads, or p's error. */
  lemma {:induction false} LookupConcat(d: Json, p: seq<string>, q: seq<string>)
    ensures Lookup(d, []) == Ok(d)
    ensures Lookup(d, p + q) == (match Lookup(d, p) case Err(e) => Err(e) case Ok(v) => Lookup(v, q))
    decreases |p|
  {
    if p == [] {
      assert p + q == q;
    } else {
      assert (p + q)[0] == p[0] && (p + q)[1..] == p[1..] + q;
      match Step(d, p[0])
      case Err(e) =>
      case Ok(v) => LookupConcat(v, p[1..], q);
    }
  }

  /** A failed lookup fails at one key: the path up to it resolves, and
      that key's step raises the error. */
  lemma {:induction false} LookupFailsAt(d: Json, p: seq<string>)
    requires Lookup(d, p).Err?
    ensures exists i | 0 <= i < |p| ::
      (Lookup(d, p[..i]).Ok? && Step(Lookup(d, p[..i]).value, p[i]) == Err(Lookup(d, p).error))
    decreases |p|
  {
    assert Lookup(d, p[..0]) == Ok(d) by {
      assert p[..0] == [];
    }
    match Step(d, p[0])
    case Err(e) =>
      assert Step(Lookup(d, p[..0]).value, p[0]) == Err(Lookup(d, p).error);
    case Ok(v) =>
      var rest := p[1..];
      LookupFailsAt(v, rest);
      var i :| 0 <= i < |rest| && Lookup(v, rest[..i]).Ok?
        && Step(Lookup(v, rest[..i]).value, rest[i]) == Err(Lookup(v, rest).error);
      assert p[..i + 1] == [p[0]] + rest[..i];
      LookupConcat(d, [p[0]], rest[..i]);
      assert Lookup(d, [p[0]]) == Ok(v) by {
        assert [p[0]][1..] == [];
      }
      assert p[i + 1] == rest[i];
  }

  /** `str(value)`: Python's text for a scalar; the text of a list or an
      object (its `repr`) is given by `repr`. */
  function Str(v: Json, repr: Json -> string): string {
    match v
    case JNull => "None"
    case JBool(b) => if b then "True" else "False"
    case JInt(i) => IntToString(i)
    case JStr(s) => s
    case _ => repr(v)
  }

  // ---------------------------------------------------------------------
  // The placeholder pattern

  /** The fixed text after the opening braces and spaces. */
  const Prefix := "site.data.report_stats."

  /** `[A-Za-z0-9_.]`. */
  predicate IsKeyChar(c: char) {
    'A' <= c <= 'Z' || 'a' <= c <= 'z' || '0' <= c <= '9' || c == '_' || c == '.'
  }

  /** The length of the run of `\s` characters starting at i. */
  function SpaceRun(s: string, i: nat): (n: nat)
    requires i <= |s|
    ensures i + n <= |s|
    decreases |s| - i
  {
    if i < |s| && IsSpace(s[i]) then 1 + SpaceRun(s, i + 1) else 0
  }

  /** The run is all spaces and cannot be extended. */
  lemma {:induction false} SpaceRunMaximal(s: string, i: nat)
    requires i <= |s|
    ensures forall k | i <= k < i + SpaceRun(s, i) :: IsSpace(s[k])
    ensures i + SpaceRun(s, i) == |s| || !IsSpace(s[i + SpaceRun(s, i)])
    decreases |s| - i
  {
    if i < |s| && IsSpace(s[i]) {
      SpaceRunMaximal(s, i + 1);
    }
  }

  /** The length of the run of `[A-Za-z0-9_.]` characters starting at i. */
  function KeyRun(s: string, i: nat): (n: nat)
    requires i <= |s|
    ensures i + n <= |s|
    decreases |s| - i
  {
    if i < |s| && IsKeyChar(s[i]) then 1 + KeyRun(s, i + 1) else 0
  }

  /** The run is all key characters and cannot be extended. */
  lemma {:induction false} KeyRunMaximal(s: string, i: nat)
    requires i <= |s|
    ensures forall k | i <= k < i + KeyRun(s, i) :: IsKeyChar(s[k])
    ensures i + KeyRun(s, i) == |s| || !IsKeyChar(s[i + KeyRun(s, i)])
    decreases |s| - i
  {
    if i < |s| && IsKeyChar(s[i]) {
      KeyRunMaximal(s, i + 1);
    }
  }

  /** A match of the pattern: where it starts, its whole text (group 0)
      and the dotted path (group 1). */
  datatype Placeholder = Placeholder(start: nat, text: string, path: string)

  function End(m: Placeholder): nat {
    m.start + |m.text|
  }

  predicate AllSpace(w: string) {
    forall k | 0 <= k < |w| :: IsSpace(w[k])
  }

  predicate AllKeyChars(p: string) {
    forall k | 0 <= k < |p| :: IsKeyChar(p[k])
  }

  /** The shape of a placeholder: `{{`, spaces, the prefix, a non-empty
      path, spaces, `}}`. */
  ghost predicate IsPlaceholderText(text: string, path: string) {
    exists w1: string, w2: string :: (AllSpace(w1) && AllSpace(w2)
      && |path| >= 1 && AllKeyChars(path)
      && text == "{{" + w1 + Prefix + path + w2 + "}}")
  }

  /** The pattern `\{\{\s*site\.data\.report_stats\.([A-Za-z0-9_.]+)\s*\}\}`
      tried at position i. Each part takes the longest run it can; no
      shorter run could let the rest match, so this is the regex's match. */
  function MatchAt(s: string, i: nat): (r: Option<Placeholder>)
    requires i <= |s|
    ensures r.Some? ==> (r.value.start == i && End(r.value) <= |s|
      && s[i..End(r.value)] == r.value.text
      && |r.value.text| >= 2 && r.value.text[0] == '{')
  {
    if i + 2 <= |s| && s[i] == '{' && s[i + 1] == '{' then PrefixAt(s, i, i + 2 + SpaceRun(s, i + 2))
    else None
  }

  /** The rest of the pattern once `{{` and the spaces after it end at a. */
  function PrefixAt(s: string, i: nat, a: nat): (r: Option<Placeholder>)
    requires i + 2 <= a <= |s| && s[i] == '{'
    ensures r.Some? ==> (r.value.start == i && End(r.value) <= |s|
      && s[i..End(r.value)] == r.value.text
      && |r.value.text| >= 2 && r.value.text[0] == '{')
  {
    if a + |Prefix| <= |s| && s[a..a + |Prefix|] == Prefix then PathAt(s, i, a + |Prefix|)
    else None
  }

  /** The rest of the pattern once the prefix ends at b: the path, the
      spaces and `}}`. */
  function PathAt(s: string, i: nat, b: nat): (r: Option<Placeholder>)
    requires i + 2 <= b <= |s| && s[i] == '{'
    ensures r.Some? ==> (r.value.start == i && End(r.value) <= |s|
      && s[i..End(r.value)] == r.value.text
      && |r.value.text| >= 2 && r.value.text[0] == '{')
  {
    var d := b + KeyRun(s, b);
    var c := d + SpaceRun(s, d);
    if b < d && c + 2 <= |s| && s[c] == '}' && s[c + 1] == '}' then
      Some(Placeholder(i, s[i..c + 2], s[b..d]))
    else None
  }

  lemma SliceSplit(s: string, x: nat, y: nat, z: nat)
    requires x <= y <= z <= |s|
    ensures s[x..z] == s[x..y] + s[y..z]
  {
  }

  /** A slice cut at five points. */
  lemma SliceSix(s: string, i: nat, a: nat, b: nat, d: nat, c: nat)
    requires i + 2 <= a <= b <= d <= c && c + 2 <= |s|
    ensures s[i..c + 2] == s[i..i + 2] + s[i + 2..a] + s[a..b] + s[b..d] + s[d..c] + s[c..c + 2]
  {
    SliceSplit(s, i, c, c + 2);
    SliceSplit(s, i, d, c);
    SliceSplit(s, i, b, d);
    SliceSplit(s, i, a, b);
    SliceSplit(s, i, i + 2, a);
  }

  /** A match at i begins with `{{`, spaces and the prefix, and the rest
      is the match of the path part after the prefix. */
  lemma MatchAtPrefix(s: string, i: nat) returns (a: nat, b: nat)
    requires i <= |s| && MatchAt(s, i).Some?
    ensures a == i + 2 + SpaceRun(s, i + 2) && b == a + |Prefix| <= |s|
    ensures s[i] == '{' && s[i + 1] == '{' && s[a..b] == Prefix
    ensures MatchAt(s, i) == PathAt(s, i, b)
  {
    a := i + 2 + SpaceRun(s, i + 2);
    b := a + |Prefix|;
    assert MatchAt(s, i) == PrefixAt(s, i, a);
  }

  /** The cut points of the path part: after the path and after the
      trailing spaces. */
  lemma PathAtParts(s: string, i: nat, b: nat) returns (d: nat, c: nat)
    requires i + 2 <= b <= |s| && s[i] == '{' && PathAt(s, i, b).Some?
    ensures b < d <= c && c + 2 <= |s| && s[c] == '}' && s[c + 1] == '}'
    ensures forall k | b <= k < d :: IsKeyChar(s[k])
    ensures forall k | d <= k < c :: IsSpace(s[k])
    ensures PathAt(s, i, b).value == Placeholder(i, s[i..c + 2], s[b..d])
  {
    d := b + KeyRun(s, b);
    c := d + SpaceRun(s, d);
    KeyRunMaximal(s, b);
    SpaceRunMaximal(s, d);
  }

  /** The pattern's parts laid out at i: `{{` at i, spaces up to a, the
      prefix up to b, key characters up to d (at least one), spaces up to
      c, `}}` at c. */
  predicate ShapeAt(s: string, i: nat, a: nat, b: nat, d: nat, c: nat) {
    i + 2 <= a && b == a + |Prefix| && b < d <= c && c + 2 <= |s|
    && s[i] == '{' && s[i + 1] == '{' && s[a..b] == Prefix && s[c] == '}' && s[c + 1] == '}'
    && (forall k | i + 2 <= k < a :: IsSpace(s[k]))
    && (forall k | b <= k < d :: IsKeyChar(s[k]))
    && (forall k | d <= k < c :: IsSpace(s[k]))
  }

  /** What the pattern matches at i is laid out as its parts, and has the
      placeholder's shape. */
  lemma MatchAtShape(s: string, i: nat) returns (a: nat, b: nat, d: nat, c: nat)
    requires i <= |s| && MatchAt(s, i).Some?
    ensures ShapeAt(s, i, a, b, d, c)
    ensures MatchAt(s, i) == Some(Placeholder(i, s[i..c + 2], s[b..d]))
    ensures IsPlaceholderText(MatchAt(s, i).value.text, MatchAt(s, i).value.path)
  {
    a, b := MatchAtPrefix(s, i);
    SpaceRunMaximal(s, i + 2);
    d, c := PathAtParts(s, i, b);
    PartsShape(s, i, a, b, d, c);
  }

  /** A text cut into `{{`, spaces, the prefix, key characters, spaces and
      `}}` has the placeholder's shape. */
  lemma PartsShape(s: string, i: nat, a: nat, b: nat, d: nat, c: nat)
    requires ShapeAt(s, i, a, b, d, c)
    ensures IsPlaceholderText(s[i..c + 2], s[b..d])
  {
    var w1, path, w2 := s[i + 2..a], s[b..d], s[d..c];
    SliceSix(s, i, a, b, d, c);
    assert s[i..i + 2] == "{{" && s[c..c + 2] == "}}";
    assert AllSpace(w1) && AllSpace(w2) && AllKeyChars(path);
    assert s[i..c + 2] == "{{" + w1 + Prefix + path + w2 + "}}";
  }

  /** Wherever the pattern's parts are laid out at i, that is the match at
      i: the scanner misses no placeholder. */
  lemma MatchAtComplete(s: string, i: nat, a: nat, b: nat, d: nat, c: nat)
    requires ShapeAt(s, i, a, b, d, c)
    ensures MatchAt(s, i) == Some(Placeholder(i, s[i..c + 2], s[b..d]))
  {
    HeadIs(s, i, a);
    RunsAre(s, b, d, c);
    PathAtIs(s, i, b, d, c);
  }

  /** `{{`, spaces up to a and the prefix: the match at i is the path
      part's match after them. */
  lemma HeadIs(s: string, i: nat, a: nat)
    requires i + 2 <= a && a + |Prefix| <= |s|
    requires s[i] == '{' && s[i + 1] == '{'
    requires forall k | i + 2 <= k < a :: IsSpace(s[k])
    requires s[a..a + |Prefix|] == Prefix
    ensures MatchAt(s, i) == PathAt(s, i, a + |Prefix|)
  {
    SpacesBeforePrefix(s, i + 2, a);
    OpenThenPrefix(s, i);
    PrefixThenPath(s, i, a);
  }

  lemma OpenThenPrefix(s: string, i: nat)
    requires i + 2 <= |s| && s[i] == '{' && s[i + 1] == '{'
    ensures MatchAt(s, i) == PrefixAt(s, i, i + 2 + SpaceRun(s, i + 2))
  {
  }

  lemma PrefixThenPath(s: string, i: nat, a: nat)
    requires i + 2 <= a && a + |Prefix| <= |s| && s[i] == '{'
    requires s[a..a + |Prefix|] == Prefix
    ensures PrefixAt(s, i, a) == PathAt(s, i, a + |Prefix|)
  {
  }

  /** Spaces from j up to a, where the prefix begins: the run stops at a. */
  lemma SpacesBeforePrefix(s: string, j: nat, a: nat)
    requires j <= a && a + |Prefix| <= |s|
    requires forall k | j <= k < a :: IsSpace(s[k])
    requires s[a..a + |Prefix|] == Prefix
    ensures SpaceRun(s, j) == a - j
  {
    assert s[a] == s[a..a + |Prefix|][0] == 's';
    SpaceRunIs(s, j, a - j);
  }

  /** Key characters from b to d, then spaces up to a closing brace at c:
      the two runs end at d and c. */
  lemma RunsAre(s: string, b: nat, d: nat, c: nat)
    requires b <= d <= c < |s| && s[c] == '}'
    requires forall k | b <= k < d :: IsKeyChar(s[k])
    requires forall k | d <= k < c :: IsSpace(s[k])
    ensures KeyRun(s, b) == d - b && SpaceRun(s, d) == c - d
  {
    KeyRunIs(s, b, d - b);
    SpaceRunIs(s, d, c - d);
  }

  /** The path part, once its runs are known. */
  lemma PathAtIs(s: string, i: nat, b: nat, d: nat, c: nat)
    requires i + 2 <= b < d <= c && c + 2 <= |s| && s[i] == '{'
    requires KeyRun(s, b) == d - b && SpaceRun(s, d) == c - d
    requires s[c] == '}' && s[c + 1] == '}'
    ensures PathAt(s, i, b) == Some(Placeholder(i, s[i..c + 2], s[b..d]))
  {
  }

  lemma {:induction false} SpaceRunIs(s: string, i: nat, n: nat)
    requires i + n < |s|
    requires forall k | i <= k < i + n :: IsSpace(s[k])
    requires !IsSpace(s[i + n])
    ensures SpaceRun(s, i) == n
    decreases n
  {
    if n > 0 {
      SpaceRunIs(s, i + 1, n - 1);
    }
  }

  lemma {:induction false} KeyRunIs(s: string, i: nat, n: nat)
    requires i + n < |s|
    requires forall k | i <= k < i + n :: IsKeyChar(s[k])
    requires !IsKeyChar(s[i + n])
    ensures KeyRun(s, i) == n
    decreases n
  {
    if n > 0 {
      KeyRunIs(s, i + 1, n - 1);
    }
  }

  /** Matches in order and not overlapping, each one the pattern's match
      where it starts, the first at or after `pos`. */
  predicate Positioned(s: string, pos: nat, ms: seq<Placeholder>)
    decreases |ms|
  {
    pos <= |s|
    && (ms != [] ==>
          pos <= ms[0].start <= |s| && MatchAt(s, ms[0].start) == Some(ms[0])
          && Positioned(s, End(ms[0]), ms[1..]))
  }

  /** `pattern.finditer(s)` from position i: the match at the first
      position that has one, then the search goes on after it. */
  function Scan(s: string, i: nat): seq<Placeholder>
    requires i <= |s|
    decreases |s| - i
  {
    if i == |s| then []
    else
      match MatchAt(s, i)
      case None => Scan(s, i + 1)
      case Some(m) => [m] + Scan(s, End(m))
  }

  /** The matches come left to right, without overlap, each the pattern's
      match where it starts. */
  lemma {:induction false} ScanPositioned(s: string, i: nat)
    requires i <= |s|
    ensures Positioned(s, i, Scan(s, i))
    decreases |s| - i
  {
    if i < |s| {
      match MatchAt(s, i)
      case None =>
        ScanPositioned(s, i + 1);
      case Some(m) =>
        ScanPositioned(s, End(m));
        assert ([m] + Scan(s, End(m)))[1..] == Scan(s, End(m));
    }
  }

  /** Between i and a match, and between matches, no position has a match:
      finditer misses none. */
  lemma {:induction false} ScanGaps(s: string, i: nat, j: nat)
    requires i <= j < |s|
    requires forall m | m in Scan(s, i) :: !(m.start <= j < End(m))
    ensures MatchAt(s, j).None?
    decreases |s| - i
  {
    match MatchAt(s, i)
    case None =>
      if i < j {
        ScanGaps(s, i + 1, j);
      }
    case Some(m) =>
      assert m in Scan(s, i);
      var rest := Scan(s, End(m));
      assert forall x | x in rest :: x in Scan(s, i);
      ScanGaps(s, End(m), j);
  }

  /** A content with no match anywhere has no placeholder to render. */
  lemma {:induction false} ScanNone(s: string, i: nat)
    requires i <= |s|
    requires forall k | i <= k < |s| :: MatchAt(s, k).None?
    ensures Scan(s, i) == []
    decreases |s| - i
  {
    if i < |s| {
      ScanNone(s, i + 1);
    }
  }

  // ---------------------------------------------------------------------
  // Replacement

  predicate OccursAt(s: string, pat: string, j: int) {
    0 <= j && j + |pat| <= |s| && s[j..j + |pat|] == pat
  }

  /** `s.find(pat, i)`: the first occurrence at or after i. */
  function FindFrom(s: string, pat: string, i: nat): (r: Option<nat>)
    ensures r.Some? ==> (i <= r.value && OccursAt(s, pat, r.value)
      && forall j | i <= j < r.value :: !OccursAt(s, pat, j))
    ensures r.None? ==> forall j | i <= j :: !OccursAt(s, pat, j)
    decreases |s| - i
  {
    if i + |pat| > |s| then None
    else if s[i..i + |pat|] == pat then Some(i)
    else FindFrom(s, pat, i + 1)
  }

  /** `s.replace(pat, rep, 1)`: the first occurrence replaced, or s as it
      is. */
  function ReplaceFirst(s: string, pat: string, rep: string): string {
    match FindFrom(s, pat, 0)
    case None => s
    case Some(j) => s[..j] + rep + s[j + |pat|..]
  }

  predicate NoBrace(s: string) {
    forall k | 0 <= k < |s| :: s[k] != '{'
  }

  /** A pattern starting with a brace is first found after a brace-free
      stretch. */
  lemma ReplaceAfterBraceFree(a: string, pat: string, b: string, rep: string)
    requires NoBrace(a) && |pat| >= 1 && pat[0] == '{'
    ensures ReplaceFirst(a + pat + b, pat, rep) == a + rep + b
  {
    var s := a + pat + b;
    assert s[|a|..|a| + |pat|] == pat;
    assert OccursAt(s, pat, |a|);
    forall j | 0 <= j < |a| ensures !OccursAt(s, pat, j) {
      assert s[j] == a[j];
    }
    assert s[..|a|] == a && s[|a| + |pat|..] == b;
  }

  // ---------------------------------------------------------------------
  // Rendering

  /** The `AssertionError` raised for a placeholder whose path does not
      resolve. */
  datatype RenderError = Unresolved(path: string, cause: LookupError)

  /** The path of a placeholder: its group 1 split on dots. */
  function PathOf(m: Placeholder): seq<string> {
    Split(m.path, '.')
  }

  /** The loop body over the matches `ms`, from the text `rendered`. */
  function RenderFrom(rendered: string, ms: seq<Placeholder>, data: Json, repr: Json -> string): Result<string, RenderError>
    decreases |ms|
  {
    if ms == [] then Ok(rendered)
    else
      match Lookup(data, PathOf(ms[0]))
      case Err(e) => Err(Unresolved(ms[0].path, e))
      case Ok(v) => RenderFrom(ReplaceFirst(rendered, ms[0].text, Str(v, repr)), ms[1..], data, repr)
  }

  /** `render_report_stats(content, data)`. */
  function Render(content: string, data: Json, repr: Json -> string): Result<string, RenderError> {
    RenderFrom(content, Scan(content, 0), data, repr)
  }

  /** `render_report_stats`: the loop over the matches of the original
      content, rebinding `rendered` after each replacement. */
  method RenderReportStats(content: string, data: Json, repr: Json -> string) returns (r: Result<string, RenderError>)
    ensures r == Render(content, data, repr)
  {
    var ms := Scan(content, 0);
    var rendered := content;
    for i := 0 to |ms|
      invariant RenderFrom(rendered, ms[i..], data, repr) == Render(content, data, repr)
    {
      assert ms[i..][0] == ms[i] && ms[i..][1..] == ms[i + 1..];
      var m := ms[i];
      var value := GetNested(data, Split(m.path, '.'));
      if value.Err? {
        return Err(Unresolved(m.path, value.error));
      }
      rendered := ReplaceFirst(rendered, m.text, Str(value.value, repr));
    }
    assert ms[|ms|..] == [];
    return Ok(rendered);
  }

  /** Content without any placeholder comes back unchanged. */
  lemma RenderWithoutPlaceholders(content: string, data: Json, repr: Json -> string)
    requires forall k | 0 <= k < |content| :: MatchAt(content, k).None?
    ensures Render(content, data, repr) == Ok(content)
  {
    ScanNone(content, 0);
  }

  /** Rendering succeeds exactly when every placeholder's path resolves. */
  lemma {:induction false} RenderFromOk(rendered: string, ms: seq<Placeholder>, data: Json, repr: Json -> string)
    ensures RenderFrom(rendered, ms, data, repr).Ok? <==> forall k | 0 <= k < |ms| :: Lookup(data, PathOf(ms[k])).Ok?
    decreases |ms|
  {
    if ms != [] {
      match Lookup(data, PathOf(ms[0]))
      case Err(e) =>
      case Ok(v) =>
        RenderFromOk(ReplaceFirst(rendered, ms[0].text, Str(v, repr)), ms[1..], data, repr);
        assert forall k | 1 <= k < |ms| :: ms[k] == ms[1..][k - 1];
    }
  }

  /** A failed rendering names the first placeholder whose path does not
      resolve, with the lookup's own error. */
  lemma {:induction false} RenderFromFirstError(rendered: string, ms: seq<Placeholder>, data: Json, repr: Json -> string)
    requires RenderFrom(rendered, ms, data, repr).Err?
    ensures exists k | 0 <= k < |ms| :: (Lookup(data, PathOf(ms[k])).Err?
      && RenderFrom(rendered, ms, data, repr).error == Unresolved(ms[k].path, Lookup(data, PathOf(ms[k])).error)
      && forall j | 0 <= j < k :: Lookup(data, PathOf(ms[j])).Ok?)
    decreases |ms|
  {
    match Lookup(data, PathOf(ms[0]))
    case Err(e) =>
      assert Lookup(data, PathOf(ms[0])).Err?;
    case Ok(v) =>
      var rest := ms[1..];
      var next := ReplaceFirst(rendered, ms[0].text, Str(v, repr));
      RenderFromFirstError(next, rest, data, repr);
      var k :| 0 <= k < |rest| && Lookup(data, PathOf(rest[k])).Err?
        && RenderFrom(next, rest, data, repr).error == Unresolved(rest[k].path, Lookup(data, PathOf(rest[k])).error)
        && forall j | 0 <= j < k :: Lookup(data, PathOf(rest[j])).Ok?;
      assert ms[k + 1] == rest[k];
      assert forall j | 1 <= j < k + 1 :: ms[j] == rest[j - 1];
  }

  // ---------------------------------------------------------------------
  // What a successful rendering produces

  /** The text that takes the placeholder's place: the value's text, or the
      placeholder itself when its path does not resolve. */
  function ValueText(m: Placeholder, data: Json, repr: Json -> string): string {
    match Lookup(data, PathOf(m))
    case Ok(v) => Str(v, repr)
    case Err(_) => m.text
  }

  /** The content from pos with each of the matches `ms` put in place of
      its value's text: the rendering the template intends. */
  function Fill(content: string, pos: nat, ms: seq<Placeholder>, data: Json, repr: Json -> string): string
    requires Positioned(content, pos, ms)
    decreases |ms|
  {
    if ms == [] then content[pos..]
    else content[pos..ms[0].start] + ValueText(ms[0], data, repr) + Fill(content, End(ms[0]), ms[1..], data, repr)
  }

  /** No brace in the content from pos outside the matches `ms`. */
  predicate BracesOnlyInMatches(content: string, pos: nat, ms: seq<Placeholder>)
    requires pos <= |content|
    decreases |ms|
  {
    if ms == [] then NoBrace(content[pos..])
    else
      pos <= ms[0].start <= End(ms[0]) <= |content|
      && NoBrace(content[pos..ms[0].start]) && BracesOnlyInMatches(content, End(ms[0]), ms[1..])
  }

  /** Every placeholder's path resolves to a value whose text has no brace. */
  predicate ResolvesPlainly(ms: seq<Placeholder>, data: Json, repr: Json -> string) {
    forall k | 0 <= k < |ms| ::
      Lookup(data, PathOf(ms[k])).Ok? && NoBrace(Str(Lookup(data, PathOf(ms[k])).value, repr))
  }

  /** One replacement: the first occurrence of the match's text is the
      match itself when nothing before it has a brace. */
  lemma StepReplaces(done: string, content: string, pos: nat, m: Placeholder, value: string)
    requires pos <= m.start <= |content| && MatchAt(content, m.start) == Some(m)
    requires NoBrace(done + content[pos..m.start])
    ensures ReplaceFirst(done + content[pos..], m.text, value)
      == (done + content[pos..m.start] + value) + content[End(m)..]
  {
    var gap, rest := content[pos..m.start], content[End(m)..];
    SplitAtMatch(done, content, pos, m.start, End(m));
    ReplaceAfterBraceFree(done + gap, m.text, rest, value);
  }

  lemma Regroup(a: string, b: string, c: string, d: string)
    ensures a + b + c + d == a + (b + c + d)
  {
  }

  lemma SplitAtMatch(done: string, s: string, pos: nat, x: nat, y: nat)
    requires pos <= x <= y <= |s|
    ensures done + s[pos..] == (done + s[pos..x]) + s[x..y] + s[y..]
  {
    assert s[pos..] == s[pos..x] + s[x..y] + s[y..];
  }

  lemma ResolvesPlainlyTail(ms: seq<Placeholder>, data: Json, repr: Json -> string)
    requires ms != [] && ResolvesPlainly(ms, data, repr)
    ensures ResolvesPlainly(ms[1..], data, repr)
  {
    assert forall k | 0 <= k < |ms[1..]| :: ms[1..][k] == ms[k + 1];
  }

  /** One turn of the replacement loop over text already rendered
      (`done`, with no brace) followed by the content from pos. */
  lemma RenderFromStep(done: string, content: string, pos: nat, ms: seq<Placeholder>, data: Json, repr: Json -> string)
    requires NoBrace(done) && Positioned(content, pos, ms) && ms != []
    requires NoBrace(content[pos..ms[0].start]) && Lookup(data, PathOf(ms[0])).Ok?
    requires NoBrace(Str(Lookup(data, PathOf(ms[0])).value, repr))
    ensures NoBrace(done + content[pos..ms[0].start] + Str(Lookup(data, PathOf(ms[0])).value, repr))
    ensures RenderFrom(done + content[pos..], ms, data, repr)
      == RenderFrom(done + content[pos..ms[0].start] + Str(Lookup(data, PathOf(ms[0])).value, repr)
                    + content[End(ms[0])..], ms[1..], data, repr)
  {
    var m := ms[0];
    var value := Str(Lookup(data, PathOf(m)).value, repr);
    StepReplaces(done, content, pos, m, value);
  }

  /** The replacement loop, run over text already rendered (`done`, with no
      brace) followed by the content from pos, finds each placeholder at
      its own place. */
  lemma {:induction false} RenderFromFill(done: string, content: string, pos: nat, ms: seq<Placeholder>, data: Json, repr: Json -> string)
    requires NoBrace(done) && Positioned(content, pos, ms)
    requires BracesOnlyInMatches(content, pos, ms) && ResolvesPlainly(ms, data, repr)
    ensures RenderFrom(done + content[pos..], ms, data, repr) == Ok(done + Fill(content, pos, ms, data, repr))
    ensures NoBrace(Fill(content, pos, ms, data, repr))
    decreases |ms|
  {
    if ms != [] {
      var m := ms[0];
      var gap := content[pos..m.start];
      var value := Str(Lookup(data, PathOf(m)).value, repr);
      RenderFromStep(done, content, pos, ms, data, repr);
      ResolvesPlainlyTail(ms, data, repr);
      RenderFromFill(done + gap + value, content, End(m), ms[1..], data, repr);
      var tail := Fill(content, End(m), ms[1..], data, repr);
      assert Fill(content, pos, ms, data, repr) == gap + value + tail;
      Regroup(done, gap, value, tail);
    }
  }

  /** When every brace of the content belongs to a placeholder and every
      path resolves to brace-free text, rendering puts each value in its
      placeholder's place, and no brace, hence no placeholder, is left. */
  lemma RenderSubstitutes(content: string, data: Json, repr: Json -> string)
    requires BracesOnlyInMatches(content, 0, Scan(content, 0))
    requires ResolvesPlainly(Scan(content, 0), data, repr)
    ensures Positioned(content, 0, Scan(content, 0))
    ensures Render(content, data, repr) == Ok(Fill(content, 0, Scan(content, 0), data, repr))
    ensures NoBrace(Render(content, data, repr).value)
    ensures forall k | 0 <= k <= |Render(content, data, repr).value| ::
      MatchAt(Render(content, data, repr).value, k).None?
  {
    var ms := Scan(content, 0);
    ScanPositioned(content, 0);
    var filled := Fill(content, 0, ms, data, repr);
    RenderFromFill([], content, 0, ms, data, repr);
    assert [] + content[0..] == content && [] + filled == filled;
    assert Render(content, data, repr) == RenderFrom([] + content[0..], ms, data, repr);
    NoBraceNoMatch(filled);
  }

  /** Text without a brace holds no placeholder. */
  lemma NoBraceNoMatch(r: string)
    requires NoBrace(r)
    ensures forall k | 0 <= k <= |r| :: MatchAt(r, k).None?
  {
  }

  // ---------------------------------------------------------------------
  // A placeholder inside a placeholder

  /** Positions without a match are skipped by the search. */
  lemma {:induction false} ScanSkip(s: string, i: nat, j: nat)
    requires i <= j <= |s|
    requires forall k | i <= k < j :: MatchAt(s, k).None?
    ensures Scan(s, i) == Scan(s, j)
    decreases j - i
  {
    if i < j {
      ScanSkip(s, i + 1, j);
    }
  }

  /** The opening of a placeholder without spaces. */
  const Open := "{{" + Prefix
  const Inner := Open + "b}}"
  const Nested := Open + "a" + Inner + "}}"
  const NestedRendered := Open + "a5}}"

  /** Where the parts of `Nested` and `NestedRendered` lie. */
  lemma NestedSlices()
    ensures |Nested| == 56 && |NestedRendered| == 29
    ensures Nested[2..25] == Prefix && Nested[26..54] == Inner && Nested[28..51] == Prefix
    ensures NestedRendered[2..25] == Prefix
  {
    var s, r := Nested, NestedRendered;
    assert Open[2..] == Prefix;
    assert s[..25] == Open;
    assert s[2..25] == s[..25][2..];
    assert Inner[..25] == Open;
    assert s[28..51] == s[26..54][..25][2..];
    assert r[..25] == Open;
    assert r[2..25] == r[..25][2..];
  }

  /** The outer placeholder's path stops at the inner braces, so nothing
      matches before the inner placeholder. */
  lemma NestedOuterFails()
    ensures MatchAt(Nested, 0).None?
  {
    var s := Nested;
    NestedSlices();
    assert s[0] == '{' && s[1] == '{' && s[25] == 'a' && s[26] == '{';
    PathCutByBrace(s);
  }

  /** `{{`, the prefix and a one-character path followed by `{`: no match. */
  lemma PathCutByBrace(s: string)
    requires |s| >= 27 && s[0] == '{' && s[1] == '{' && s[2..25] == Prefix
    requires IsKeyChar(s[25]) && s[26] == '{'
    ensures MatchAt(s, 0).None?
  {
    assert s[2] == s[2..25][0];
    SpaceRunIs(s, 2, 0);
    OpenThenPrefix(s, 0);
    PrefixThenPath(s, 0, 2);
    KeyRunIs(s, 25, 1);
    SpaceRunIs(s, 26, 0);
  }

  /** No other position before the inner placeholder starts with `{{`. */
  lemma NestedNoOtherOpening()
    ensures forall k | 1 <= k < 26 :: MatchAt(Nested, k).None?
  {
    var s := Nested;
    NestedSlices();
    assert s[..25] == Open;
    forall k | 1 <= k < 26 ensures s[k] != '{' || s[k + 1] != '{' {
      if k == 1 {
        assert s[2] == 's';
      } else if k == 25 {
        assert s[25] == 'a';
      } else {
        assert s[k] == s[2..25][k - 2];
      }
    }
  }

  /** The inner placeholder matches where it starts. */
  lemma NestedInnerMatches()
    ensures MatchAt(Nested, 26) == Some(Placeholder(26, Inner, "b"))
  {
    var s := Nested;
    NestedSlices();
    assert s[26] == '{' && s[27] == '{' && s[51] == 'b' && s[52] == '}' && s[53] == '}';
    assert ShapeAt(s, 26, 28, 51, 52, 52);
    MatchAtComplete(s, 26, 28, 51, 52, 52);
    assert s[51..52] == "b";
  }

  /** Only the inner placeholder of `Nested` is found. */
  lemma NestedScan()
    ensures Scan(Nested, 0) == [Placeholder(26, Inner, "b")]
  {
    var s := Nested;
    NestedOuterFails();
    NestedNoOtherOpening();
    ScanSkip(s, 0, 26);
    NestedInnerMatches();
    NestedSlices();
    assert s[54] == '}';
    ScanSkip(s, 54, 56);
  }

  /** The first occurrence of the inner placeholder's text is the inner
      placeholder itself, so replacing it leaves the outer one's text. */
  lemma NestedReplace()
    ensures ReplaceFirst(Nested, Inner, "5") == NestedRendered
  {
    var s := Nested;
    NestedSlices();
    assert OccursAt(s, Inner, 26);
    assert !OccursAt(s, Inner, 0) by {
      assert s[25] != Inner[25];
    }
    assert !OccursAt(s, Inner, 1) by {
      assert s[2] != Inner[1];
    }
    forall j | 2 <= j < 26 ensures !OccursAt(s, Inner, j) {
      assert s[j] != Inner[0];
    }
    assert FindFrom(s, Inner, 0) == Some(26);
    assert s[..26] + "5" + s[54..] == NestedRendered;
  }

  /** Rendering a placeholder nested in another can leave a placeholder
      behind: with b = 5 the outer text becomes one naming `a5`. */
  lemma NestedLeavesPlaceholder(repr: Json -> string)
    ensures Render(Nested, JObject(map["b" := JInt(5)]), repr) == Ok(NestedRendered)
    ensures MatchAt(NestedRendered, 0).Some?
  {
    NestedRenders(repr);
    RenderedMatches();
  }

  lemma NestedRenders(repr: Json -> string)
    ensures Render(Nested, JObject(map["b" := JInt(5)]), repr) == Ok(NestedRendered)
  {
    var data := JObject(map["b" := JInt(5)]);
    var m := Placeholder(26, Inner, "b");
    NestedScan();
    SplitNoSeparator("b", '.');
    assert Lookup(data, PathOf(m)) == Ok(JInt(5));
    assert Str(JInt(5), repr) == "5";
    NestedReplace();
    assert RenderFrom(Nested, [m], data, repr) == RenderFrom(NestedRendered, [], data, repr);
  }

  lemma RenderedMatches()
    ensures MatchAt(NestedRendered, 0).Some?
  {
    var r := NestedRendered;
    NestedSlices();
    assert r[25] == 'a' && r[26] == '5' && r[27] == '}' && r[28] == '}';
    assert ShapeAt(r, 0, 2, 25, 27, 27);
    MatchAtComplete(r, 0, 2, 25, 27, 27);
  }
}
