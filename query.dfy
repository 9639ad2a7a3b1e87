/** `buildQuery`: a remote-read query (a time range and label matchers) turned
    into one SQL statement over the samples view. A compiled query is a list
    of predicate fragments plus a map of label equalities; its text is
    rendered separately, with RFC 3339 time formatting and JSON encoding left
    as parameters. */
module QueryCompiler {
  import opened Outcomes
  import opened Text
  import opened Escaping
  import opened Timestamps
  import Labels

  /** The matcher types of the remote-read protocol. */
  const EQ: int := 0
  const NEQ: int := 1
  const RE: int := 2
  const NRE: int := 3

  datatype Matcher = Matcher(matchType: int, name: string, value: string)

  datatype Query = Query(startMs: int, endMs: int, matchers: seq<Matcher>)

  /** One `WHERE` conjunct. The strings are SQL literal bodies as they appear
      between the quotes. */
  datatype Fragment =
    | NameAbsentOrEmpty
    | NameEquals(value: string)
    | NameNotEquals(value: string)
    | NameMatches(pattern: string)
    | NameNotMatches(pattern: string)
    | LabelAbsentOrEmpty(labelName: string)
    | LabelNotEquals(labelName: string, value: string)
    | LabelMatches(labelName: string, pattern: string)
    | LabelNotMatches(labelName: string, pattern: string)
    | TimeAtLeast(bound: Instant)
    | TimeAtMost(bound: Instant)

  /** What one matcher contributes: a conjunct, or an entry of the equality map
      that becomes the `labels @> ...` containment test. */
  datatype Contribution = Where(fragment: Fragment) | Contains(labelName: string, value: string)

  datatype Compiled = Compiled(conjuncts: seq<Fragment>, equalities: map<string, string>)

  /** A matcher type the compiler knows. */
  predicate KnownType(t: int)
  {
    t == EQ || t == NEQ || t == RE || t == NRE
  }

  /** A label equality with a non-empty value: it goes to the equality map. */
  predicate Deferred(m: Matcher)
  {
    m.name != Labels.NameLabel && m.matchType == EQ && m.value != []
  }

  /** One matcher's contribution, with `literal` applied to the name and the
      value before they are put in SQL: the metric name and the other labels
      have separate switches. */
  function Translate(m: Matcher, literal: string -> string): (r: Result<Contribution>)
    ensures r.Err? <==> !KnownType(m.matchType)
  {
    if m.name == Labels.NameLabel then TranslateName(m.matchType, literal(m.value))
    else TranslateLabel(m.matchType, literal(m.name), literal(m.value))
  }

  function TranslateName(matchType: int, value: string): (r: Result<Contribution>)
    ensures r.Err? <==> !KnownType(matchType)
  {
    if matchType == EQ then Ok(Where(if value == [] then NameAbsentOrEmpty else NameEquals(value)))
    else if matchType == NEQ then Ok(Where(NameNotEquals(value)))
    else if matchType == RE then Ok(Where(NameMatches(AnchorValue(value))))
    else if matchType == NRE then Ok(Where(NameNotMatches(AnchorValue(value))))
    else Err(UnknownNameMatchType(matchType))
  }

  function TranslateLabel(matchType: int, name: string, value: string): (r: Result<Contribution>)
    ensures r.Err? <==> !KnownType(matchType)
  {
    if matchType == EQ then (if value == [] then Ok(Where(LabelAbsentOrEmpty(name))) else Ok(Contains(name, value)))
    else if matchType == NEQ then Ok(Where(LabelNotEquals(name, value)))
    else if matchType == RE then Ok(Where(LabelMatches(name, AnchorValue(value))))
    else if matchType == NRE then Ok(Where(LabelNotMatches(name, AnchorValue(value))))
    else Err(UnknownMatchType(matchType))
  }

  function Escaper(): string -> string
  {
    s => EscapeValue(s)
  }

  /** How `buildQuery` treats one matcher: name and value escaped, an unknown
      type an error, a non-empty label equality deferred to the map. */
  function Classify(m: Matcher): (r: Result<Contribution>)
    ensures r.Err? <==> !KnownType(m.matchType)
    ensures r.Ok? ==> (r.value.Contains? <==> Deferred(m))
    ensures r.Ok? && r.value.Contains? ==> r.value == Contains(EscapeValue(m.name), EscapeValue(m.value))
  {
    EscapeEmptyIff(m.value);
    Translate(m, Escaper())
  }

  /** What a matcher asks for, before any escaping: the reference the escaped
      form is compared with. */
  function Meaning(m: Matcher): Result<Contribution>
  {
    Translate(m, s => s)
  }

  function Classifier(): Matcher -> Result<Contribution>
  {
    m => Classify(m)
  }

  function Add(c: Compiled, contribution: Contribution): Compiled
  {
    match contribution
    case Where(f) => c.(conjuncts := c.conjuncts + [f])
    case Contains(k, v) => c.(equalities := c.equalities[k := v])
  }

  /** The contributions folded in order; the first error stops the fold. */
  function Fold(cs: seq<Result<Contribution>>): Result<Compiled>
  {
    if cs == [] then Ok(Compiled([], map[]))
    else
      match Fold(cs[..|cs| - 1])
      case Err(e) => Err(e)
      case Ok(c) =>
        match cs[|cs| - 1]
        case Err(e) => Err(e)
        case Ok(contribution) => Ok(Add(c, contribution))
  }

  /** The matchers compiled in order. */
  function Compile(ms: seq<Matcher>): Result<Compiled>
  {
    Fold(MapSeq(Classifier(), ms))
  }

  /** One more contribution: the fold so far, extended by it or stopped by its
      error. */
  lemma FoldStep(cs: seq<Result<Contribution>>, i: int)
    requires 0 <= i < |cs|
    ensures Fold(cs[..i + 1]) ==
      match Fold(cs[..i])
      case Err(e) => Err(e)
      case Ok(c) => (match cs[i] case Err(e) => Err(e) case Ok(x) => Ok(Add(c, x)))
  {
    assert cs[..i + 1][..i] == cs[..i];
  }

  /** Once the fold has failed, later contributions do not change its error. */
  lemma {:induction false} FoldStopsAtError(cs: seq<Result<Contribution>>, i: int)
    requires 0 <= i <= |cs| && Fold(cs[..i]).Err?
    ensures Fold(cs) == Fold(cs[..i])
    decreases |cs|
  {
    if i < |cs| {
      var n := |cs| - 1;
      assert cs[..n][..i] == cs[..i];
      FoldStopsAtError(cs[..n], i);
    } else {
      assert cs[..i] == cs;
    }
  }

  /** The fold fails iff some contribution is an error, and then with the
      first error. */
  lemma {:induction false} FoldFails(cs: seq<Result<Contribution>>)
    ensures Fold(cs).Err? <==> exists i :: 0 <= i < |cs| && cs[i].Err?
    ensures Fold(cs).Err? ==> exists i :: (0 <= i < |cs| && cs[i] == Err(Fold(cs).error)
      && forall j :: 0 <= j < i ==> cs[j].Ok?)
    decreases |cs|
  {
    if cs != [] {
      var n := |cs| - 1;
      var p := cs[..n];
      FoldStep(cs, n);
      assert cs[..n + 1] == cs;
      FoldFails(p);
      assert forall j :: 0 <= j < n ==> p[j] == cs[j];
    }
  }

  /** The conjuncts of a list of contributions, read front to back. */
  function WhereParts(cs: seq<Result<Contribution>>): seq<Fragment>
  {
    if cs == [] then []
    else (if cs[0].Ok? && cs[0].value.Where? then [cs[0].value.fragment] else []) + WhereParts(cs[1..])
  }

  lemma {:induction false} WherePartsSnoc(cs: seq<Result<Contribution>>, c: Result<Contribution>)
    ensures WhereParts(cs + [c]) == WhereParts(cs) + WhereParts([c])
    decreases |cs|
  {
    if cs != [] {
      assert (cs + [c])[1..] == cs[1..] + [c];
      WherePartsSnoc(cs[1..], c);
    }
  }

  lemma {:induction false} FoldConjuncts(cs: seq<Result<Contribution>>)
    requires Fold(cs).Ok?
    ensures Fold(cs).value.conjuncts == WhereParts(cs)
    decreases |cs|
  {
    if cs != [] {
      var n := |cs| - 1;
      FoldStep(cs, n);
      assert cs[..n + 1] == cs;
      assert cs == cs[..n] + [cs[n]];
      FoldConjuncts(cs[..n]);
      WherePartsSnoc(cs[..n], cs[n]);
    }
  }

  /** `cs[i]` records an equality on label `k`. */
  predicate EqualityOn(cs: seq<Result<Contribution>>, i: int, k: string)
    requires 0 <= i < |cs|
  {
    cs[i].Ok? && cs[i].value.Contains? && cs[i].value.labelName == k
  }

  /** The map holds one entry per label some contribution records, with the
      value of the last such contribution. */
  lemma {:induction false} FoldEqualities(cs: seq<Result<Contribution>>)
    requires Fold(cs).Ok?
    ensures var eq := Fold(cs).value.equalities;
      && (forall k :: k in eq <==> exists i :: 0 <= i < |cs| && EqualityOn(cs, i, k))
      && (forall i, k :: 0 <= i < |cs| && EqualityOn(cs, i, k) && (forall j :: i < j < |cs| ==> !EqualityOn(cs, j, k))
            ==> eq[k] == cs[i].value.value)
    decreases |cs|
  {
    if cs != [] {
      var n := |cs| - 1;
      var p := cs[..n];
      FoldStep(cs, n);
      assert cs[..n + 1] == cs;
      FoldEqualities(p);
      assert forall j :: 0 <= j < n ==> p[j] == cs[j];
      var eq0, eq := Fold(p).value.equalities, Fold(cs).value.equalities;
      assert cs[n].Ok?;
      var last := cs[n].value;
      assert eq == if last.Contains? then eq0[last.labelName := last.value] else eq0;
      forall k
        ensures k in eq <==> exists i :: 0 <= i < |cs| && EqualityOn(cs, i, k)
      {
        if k in eq {
          if last.Contains? && last.labelName == k {
            assert EqualityOn(cs, n, k);
          } else {
            assert k in eq0;
            var i :| 0 <= i < n && EqualityOn(p, i, k);
            assert EqualityOn(cs, i, k);
          }
        }
        if exists i :: 0 <= i < |cs| && EqualityOn(cs, i, k) {
          var i :| 0 <= i < |cs| && EqualityOn(cs, i, k);
          if i < n {
            assert EqualityOn(p, i, k);
            assert k in eq0;
          } else {
            assert last.Contains? && last.labelName == k;
          }
        }
      }
      forall i, k | 0 <= i < |cs| && EqualityOn(cs, i, k) && (forall j :: i < j < |cs| ==> !EqualityOn(cs, j, k))
        ensures eq[k] == cs[i].value.value
      {
        if i < n {
          assert EqualityOn(p, i, k);
          forall j | i < j < n
            ensures !EqualityOn(p, j, k)
          {
            assert !EqualityOn(cs, j, k);
          }
          assert !EqualityOn(cs, n, k);
        }
      }
    }
  }

  /** The conjuncts a matcher adds, as a list: one, or none for a non-empty
      label equality. */
  function Emitted(m: Matcher): (r: seq<Fragment>)
    ensures KnownType(m.matchType) ==> |r| == (if Deferred(m) then 0 else 1)
  {
    match Classify(m)
    case Ok(Where(f)) => [f]
    case _ => []
  }

  /** The conjuncts of a matcher list, read front to back. */
  function Selected(ms: seq<Matcher>): seq<Fragment>
  {
    if ms == [] then [] else Emitted(ms[0]) + Selected(ms[1..])
  }

  /** The time bounds closing every query. */
  function Bounds(q: Query): seq<Fragment>
  {
    [TimeAtLeast(ToTimestamp(q.startMs)), TimeAtMost(ToTimestamp(q.endMs))]
  }

  /** One conjunct as SQL, `Format(time.RFC3339)` abstracted as `rfc3339`. */
  function FragmentText(f: Fragment, rfc3339: Instant -> string): string
  {
    match f
    case NameAbsentOrEmpty => "(name IS NULL OR name = '')"
    case NameEquals(v) => "name = '" + v + "'"
    case NameNotEquals(v) => "name != '" + v + "'"
    case NameMatches(p) => "name ~ '" + p + "'"
    case NameNotMatches(p) => "name !~ '" + p + "'"
    case LabelAbsentOrEmpty(k) => "((labels ? '" + k + "') = false OR (labels->>'" + k + "' = ''))"
    case LabelNotEquals(k, v) => "labels->>'" + k + "' != '" + v + "'"
    case LabelMatches(k, p) => "labels->>'" + k + "' ~ '" + p + "'"
    case LabelNotMatches(k, p) => "labels->>'" + k + "' !~ '" + p + "'"
    case TimeAtLeast(t) => "time >= '" + rfc3339(t) + "'"
    case TimeAtMost(t) => "time <= '" + rfc3339(t) + "'"
  }

  function Renderer(rfc3339: Instant -> string): Fragment -> string
  {
    f => FragmentText(f, rfc3339)
  }

  /** The containment suffix: present iff some label equality was deferred,
      `json.Marshal` abstracted as `marshal`. */
  function EqualsPredicate(equalities: map<string, string>, marshal: map<string, string> -> string): string
  {
    if |equalities| > 0 then " AND labels @> '" + marshal(equalities) + "'" else ""
  }

  function Statement(table: string, conjuncts: seq<string>, equalsPredicate: string): string
  {
    "SELECT time, name, value, labels FROM " + table + " WHERE " + Join(conjuncts, " AND ") + " " + equalsPredicate + " ORDER BY time"
  }

  /** The text `buildQuery` returns for `q`, or its error. */
  function QueryText(q: Query, table: string, marshal: map<string, string> -> string, rfc3339: Instant -> string): Result<string>
  {
    match Compile(q.matchers)
    case Err(e) => Err(e)
    case Ok(c) =>
      Ok(Statement(table, MapSeq(Renderer(rfc3339), c.conjuncts + Bounds(q)), EqualsPredicate(c.equalities, marshal)))
  }

  /** `buildQuery` (and `buildCommand`, which only forwards to it): the
      matchers are visited in order, each appending a conjunct or recording a
      label equality (the `switch` on name and type is `Classify`), an unknown
      type returning at once; then the two time bounds are appended. */
  method BuildQuery(q: Query, table: string, marshal: map<string, string> -> string, rfc3339: Instant -> string)
    returns (r: Result<string>)
    ensures r == QueryText(q, table, marshal, rfc3339)
  {
    var matchers: seq<string> := [];
    var labelEqualPredicates: map<string, string> := map[];
    ghost var compiled := Compiled([], map[]);
    ghost var cs := MapSeq(Classifier(), q.matchers);
    var i := 0;
    while i < |q.matchers|
      invariant 0 <= i <= |q.matchers|
      invariant Fold(cs[..i]) == Ok(compiled)
      invariant matchers == MapSeq(Renderer(rfc3339), compiled.conjuncts)
      invariant labelEqualPredicates == compiled.equalities
    {
      FoldStep(cs, i);
      var contribution := Classify(q.matchers[i]);
      assert cs[i] == contribution;
      match contribution {
        case Err(e) =>
          FoldStopsAtError(cs, i + 1);
          return Err(e);
        case Ok(Contains(escapedName, escapedValue)) =>
          labelEqualPredicates := labelEqualPredicates[escapedName := escapedValue];
        case Ok(Where(fragment)) =>
          RenderOneMore(compiled.conjuncts, [fragment], rfc3339);
          matchers := matchers + [FragmentText(fragment, rfc3339)];
      }
      compiled := Add(compiled, contribution.value);
      i := i + 1;
    }
    assert cs[..i] == cs;
    var equalsPredicate := "";
    if |labelEqualPredicates| > 0 {
      equalsPredicate := " AND labels @> '" + marshal(labelEqualPredicates) + "'";
    }
    RenderOneMore(compiled.conjuncts, Bounds(q)[..1], rfc3339);
    RenderOneMore(compiled.conjuncts + Bounds(q)[..1], Bounds(q)[1..], rfc3339);
    matchers := matchers + [FragmentText(TimeAtLeast(ToTimestamp(q.startMs)), rfc3339)];
    matchers := matchers + [FragmentText(TimeAtMost(ToTimestamp(q.endMs)), rfc3339)];
    assert compiled.conjuncts + Bounds(q)[..1] + Bounds(q)[1..] == compiled.conjuncts + Bounds(q);
    assert equalsPredicate == EqualsPredicate(compiled.equalities, marshal);
    return Ok(Statement(table, matchers, equalsPredicate));
  }

  /** Rendering one more conjunct appends its text. */
  lemma RenderOneMore(conjuncts: seq<Fragment>, one: seq<Fragment>, rfc3339: Instant -> string)
    requires |one| == 1
    ensures MapSeq(Renderer(rfc3339), conjuncts + one) == MapSeq(Renderer(rfc3339), conjuncts) + [FragmentText(one[0], rfc3339)]
  {
    MapSeqAppend(Renderer(rfc3339), conjuncts, one);
    assert MapSeq(Renderer(rfc3339), one) == [FragmentText(one[0], rfc3339)];
  }

  /** The string literals a contribution puts between quotes in the statement
      (the equality map's names and values go through `json.Marshal`). */
  function Literals(c: Contribution): seq<string>
  {
    match c
    case Contains(k, v) => [k, v]
    case Where(f) =>
      match f
      case NameAbsentOrEmpty => []
      case NameEquals(v) => [v]
      case NameNotEquals(v) => [v]
      case NameMatches(p) => [p]
      case NameNotMatches(p) => [p]
      case LabelAbsentOrEmpty(k) => [k]
      case LabelNotEquals(k, v) => [k, v]
      case LabelMatches(k, p) => [k, p]
      case LabelNotMatches(k, p) => [k, p]
      case TimeAtLeast(_) => []
      case TimeAtMost(_) => []
  }

  /** A contribution as PostgreSQL reads it: every literal body unescaped. */
  function Unescaped(c: Contribution): Contribution
  {
    match c
    case Contains(k, v) => Contains(Unescape(k), Unescape(v))
    case Where(f) =>
      Where(match f
        case NameEquals(v) => NameEquals(Unescape(v))
        case NameNotEquals(v) => NameNotEquals(Unescape(v))
        case NameMatches(p) => NameMatches(Unescape(p))
        case NameNotMatches(p) => NameNotMatches(Unescape(p))
        case LabelAbsentOrEmpty(k) => LabelAbsentOrEmpty(Unescape(k))
        case LabelNotEquals(k, v) => LabelNotEquals(Unescape(k), Unescape(v))
        case LabelMatches(k, p) => LabelMatches(Unescape(k), Unescape(p))
        case LabelNotMatches(k, p) => LabelNotMatches(Unescape(k), Unescape(p))
        case _ => f)
  }

  /** Every literal of `c` is well escaped. */
  predicate LiteralsEscaped(c: Contribution)
  {
    forall i :: 0 <= i < |Literals(c)| ==> WellEscaped(Literals(c)[i])
  }

  /** `x` is a well-escaped literal that PostgreSQL reads back as `v`. */
  predicate ReadsBackAs(x: string, v: string)
  {
    WellEscaped(x) && Unescape(x) == v && (x == [] <==> v == [])
  }

  /** The escaped value reads back as the value, and anchored as the anchored
      value. */
  lemma EscapedLiteral(v: string)
    ensures ReadsBackAs(EscapeValue(v), v)
    ensures ReadsBackAs(AnchorValue(EscapeValue(v)), AnchorValue(v))
  {
    EscapeEmptyIff(v);
    AnchorEscapeCommute(v);
    var a := AnchorValue(v);
    assert Unescape(EscapeValue(a)) == a;
  }

  /** No matcher can break out of a quoted literal: every literal the compiler
      writes is well escaped, and read back it is exactly what the matcher
      asked for (the name or value, anchored for a regular expression). */
  lemma ClassifyMeansMatcher(m: Matcher)
    requires KnownType(m.matchType)
    ensures LiteralsEscaped(Classify(m).value)
    ensures Unescaped(Classify(m).value) == Meaning(m).value
  {
    EscapedLiteral(m.name);
    EscapedLiteral(m.value);
    if m.name == Labels.NameLabel {
      NameReadsBack(m.matchType, EscapeValue(m.value), m.value);
    } else {
      LabelReadsBack(m.matchType, EscapeValue(m.name), EscapeValue(m.value), m.name, m.value);
    }
  }

  lemma NameReadsBack(t: int, e: string, v: string)
    requires KnownType(t) && ReadsBackAs(e, v) && ReadsBackAs(AnchorValue(e), AnchorValue(v))
    ensures LiteralsEscaped(TranslateName(t, e).value)
    ensures Unescaped(TranslateName(t, e).value) == TranslateName(t, v).value
  {
    if t == EQ {
      if v == [] {
        assert TranslateName(t, e) == Ok(Where(NameAbsentOrEmpty));
      } else {
        assert Literals(Where(NameEquals(e))) == [e];
      }
    } else if t == NEQ {
      assert Literals(Where(NameNotEquals(e))) == [e];
    } else if t == RE {
      assert Literals(Where(NameMatches(AnchorValue(e)))) == [AnchorValue(e)];
    } else {
      assert Literals(Where(NameNotMatches(AnchorValue(e)))) == [AnchorValue(e)];
    }
  }

  lemma LabelReadsBack(t: int, n: string, e: string, k: string, v: string)
    requires KnownType(t) && ReadsBackAs(n, k) && ReadsBackAs(e, v) && ReadsBackAs(AnchorValue(e), AnchorValue(v))
    ensures LiteralsEscaped(TranslateLabel(t, n, e).value)
    ensures Unescaped(TranslateLabel(t, n, e).value) == TranslateLabel(t, k, v).value
  {
    if t == EQ || t == NEQ {
      LabelComparisonReadsBack(t, n, e, k, v);
    } else {
      LabelPatternReadsBack(t, n, e, k, v);
    }
  }

  lemma LabelComparisonReadsBack(t: int, n: string, e: string, k: string, v: string)
    requires (t == EQ || t == NEQ) && ReadsBackAs(n, k) && ReadsBackAs(e, v) && ReadsBackAs(AnchorValue(e), AnchorValue(v))
    ensures LiteralsEscaped(TranslateLabel(t, n, e).value)
    ensures Unescaped(TranslateLabel(t, n, e).value) == TranslateLabel(t, k, v).value
  {
    if t == NEQ {
      assert Literals(Where(LabelNotEquals(n, e))) == [n, e];
    } else if v == [] {
      assert Literals(Where(LabelAbsentOrEmpty(n))) == [n];
    } else {
      assert Literals(Contains(n, e)) == [n, e];
    }
  }

  lemma LabelPatternReadsBack(t: int, n: string, e: string, k: string, v: string)
    requires (t == RE || t == NRE) && ReadsBackAs(n, k) && ReadsBackAs(e, v) && ReadsBackAs(AnchorValue(e), AnchorValue(v))
    ensures LiteralsEscaped(TranslateLabel(t, n, e).value)
    ensures Unescaped(TranslateLabel(t, n, e).value) == TranslateLabel(t, k, v).value
  {
    var p := AnchorValue(e);
    if t == RE {
      assert TranslateLabel(t, n, e) == Ok(Where(LabelMatches(n, p)));
      assert Literals(Where(LabelMatches(n, p))) == [n, p];
    } else {
      assert TranslateLabel(t, n, e) == Ok(Where(LabelNotMatches(n, p)));
      assert Literals(Where(LabelNotMatches(n, p))) == [n, p];
    }
  }

  /** The compiled matchers are an error iff some matcher type is unknown, and
      then the error is that of the first such matcher. */
  lemma CompileFails(ms: seq<Matcher>)
    ensures Compile(ms).Err? <==> exists i :: 0 <= i < |ms| && !KnownType(ms[i].matchType)
    ensures Compile(ms).Err? ==> exists i :: (0 <= i < |ms| && !KnownType(ms[i].matchType)
      && (forall j :: 0 <= j < i ==> KnownType(ms[j].matchType))
      && Compile(ms).error == Classify(ms[i]).error)
  {
    var cs := MapSeq(Classifier(), ms);
    FoldFails(cs);
    assert forall i :: 0 <= i < |ms| ==> cs[i] == Classify(ms[i]);
  }

  lemma {:induction false} SelectedIsWhereParts(ms: seq<Matcher>)
    ensures Selected(ms) == WhereParts(MapSeq(Classifier(), ms))
    decreases |ms|
  {
    if ms != [] {
      SelectedIsWhereParts(ms[1..]);
      assert MapSeq(Classifier(), ms)[1..] == MapSeq(Classifier(), ms[1..]);
    }
  }

  /** The number of non-empty label equalities in `ms`. */
  function DeferredCount(ms: seq<Matcher>): nat
  {
    if ms == [] then 0 else (if Deferred(ms[0]) then 1 else 0) + DeferredCount(ms[1..])
  }

  lemma {:induction false} SelectedCount(ms: seq<Matcher>)
    requires forall i :: 0 <= i < |ms| ==> KnownType(ms[i].matchType)
    ensures |Selected(ms)| == |ms| - DeferredCount(ms)
    decreases |ms|
  {
    if ms != [] {
      SelectedCount(ms[1..]);
    }
  }

  /** Every matcher adds exactly one conjunct, in matcher order, except a
      non-empty label equality, which adds none. */
  lemma CompileConjuncts(ms: seq<Matcher>)
    requires Compile(ms).Ok?
    ensures Compile(ms).value.conjuncts == Selected(ms)
    ensures |Compile(ms).value.conjuncts| == |ms| - DeferredCount(ms)
  {
    FoldConjuncts(MapSeq(Classifier(), ms));
    SelectedIsWhereParts(ms);
    CompileFails(ms);
    SelectedCount(ms);
  }

  /** No non-empty equality on `ms[i]`'s label follows it. */
  predicate LastFor(ms: seq<Matcher>, i: int)
    requires 0 <= i < |ms|
  {
    forall j :: i < j < |ms| ==> !(Deferred(ms[j]) && ms[j].name == ms[i].name)
  }

  /** The equality map holds one entry per label with a non-empty equality,
      keyed by the escaped label name, and the value of the last such
      matcher wins. */
  lemma CompileEqualities(ms: seq<Matcher>)
    requires Compile(ms).Ok?
    ensures var eq := Compile(ms).value.equalities;
      && (forall k :: k in eq ==> exists i :: 0 <= i < |ms| && Deferred(ms[i]) && k == EscapeValue(ms[i].name))
      && (forall i :: 0 <= i < |ms| && Deferred(ms[i]) ==> EscapeValue(ms[i].name) in eq)
      && (forall i :: 0 <= i < |ms| && Deferred(ms[i]) && LastFor(ms, i) ==> eq[EscapeValue(ms[i].name)] == EscapeValue(ms[i].value))
  {
    var cs := MapSeq(Classifier(), ms);
    FoldEqualities(cs);
    CompileFails(ms);
    assert forall i :: 0 <= i < |ms| ==> cs[i] == Classify(ms[i]);
    var eq := Compile(ms).value.equalities;
    forall i, k | 0 <= i < |ms|
      ensures EqualityOn(cs, i, k) <==> Deferred(ms[i]) && k == EscapeValue(ms[i].name)
    {
      assert KnownType(ms[i].matchType);
    }
    forall k | k in eq
      ensures exists i :: 0 <= i < |ms| && Deferred(ms[i]) && k == EscapeValue(ms[i].name)
    {
      var i :| 0 <= i < |cs| && EqualityOn(cs, i, k);
      assert Deferred(ms[i]) && k == EscapeValue(ms[i].name);
    }
    forall i | 0 <= i < |ms| && Deferred(ms[i])
      ensures EscapeValue(ms[i].name) in eq
    {
      assert EqualityOn(cs, i, EscapeValue(ms[i].name));
    }
    forall i | 0 <= i < |ms| && Deferred(ms[i]) && LastFor(ms, i)
      ensures eq[EscapeValue(ms[i].name)] == EscapeValue(ms[i].value)
    {
      var k := EscapeValue(ms[i].name);
      forall j | i < j < |cs|
        ensures !EqualityOn(cs, j, k)
      {
        if Deferred(ms[j]) {
          assert ms[j].name != ms[i].name;
          assert Unescape(EscapeValue(ms[j].name)) != Unescape(k);
        }
      }
      assert EqualityOn(cs, i, k);
      assert cs[i].value == Contains(k, EscapeValue(ms[i].value));
    }
  }

  /** `buildQuery`'s result: an error iff some matcher type is unknown;
      otherwise the conjuncts in matcher order, then the two time bounds (the
      exact instants of the millisecond bounds), then the containment suffix,
      which is there iff some label equality had a non-empty value. */
  lemma QueryShape(q: Query, table: string, marshal: map<string, string> -> string, rfc3339: Instant -> string)
    ensures var r := QueryText(q, table, marshal, rfc3339);
      && (r.Err? <==> exists i :: 0 <= i < |q.matchers| && !KnownType(q.matchers[i].matchType))
      && (r.Ok? ==>
        var eq := Compile(q.matchers).value.equalities;
        && r.value == Statement(table, MapSeq(Renderer(rfc3339), Selected(q.matchers) + Bounds(q)), EqualsPredicate(eq, marshal))
        && (EqualsPredicate(eq, marshal) != [] <==> exists i :: 0 <= i < |q.matchers| && Deferred(q.matchers[i])))
    ensures UnixNano(Bounds(q)[0].bound) == q.startMs * NanosPerMilli
    ensures UnixNano(Bounds(q)[1].bound) == q.endMs * NanosPerMilli
  {
    CompileFails(q.matchers);
    ToTimestampExact(q.startMs);
    ToTimestampExact(q.endMs);
    if Compile(q.matchers).Ok? {
      CompileConjuncts(q.matchers);
      CompileEqualities(q.matchers);
      var eq := Compile(q.matchers).value.equalities;
      if exists i :: 0 <= i < |q.matchers| && Deferred(q.matchers[i]) {
        var i :| 0 <= i < |q.matchers| && Deferred(q.matchers[i]);
        assert EscapeValue(q.matchers[i].name) in eq;
      }
    }
  }
}
