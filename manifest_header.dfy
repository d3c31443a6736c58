/** The `Spring-Context` manifest header: a comma-separated list of
    directives, each a path token (`*` or a resource path) followed by
    `;key:=value` clauses, of which only `wait-for-dependencies` is understood. */
module ManifestHeader {
  import opened Optional
  import opened Strings

  const DIRECTIVE_SEPARATOR := ','
  const CLAUSE_SEPARATOR := ';'
  const WILDCARD := "*"
  const ASSIGN := ":="
  const WAIT_FOR_DEPENDENCIES := "wait-for-dependencies"

  /** What a directive names: nothing (an empty path token), every
      discovered resource, or one resource path of the bundle. */
  datatype Target = NoTarget | Wildcard | Path(path: string)

  /** One comma-separated segment of the header; `wait` is the value of its
      last recognised `wait-for-dependencies` clause, if any. */
  datatype Directive = Directive(target: Target, wait: Option<bool>)

  /** The position of the first `:=` in `s`, if there is one. */
  function IndexOfAssign(s: string): (r: Option<nat>)
    ensures r.Some? ==> r.value + 1 < |s| && s[r.value] == ':' && s[r.value + 1] == '='
    ensures r.Some? ==> forall j :: 0 <= j < r.value ==> !(s[j] == ':' && s[j + 1] == '=')
    ensures r.None? ==> forall j :: 0 <= j < |s| - 1 ==> !(s[j] == ':' && s[j + 1] == '=')
    decreases |s|
  {
    if |s| < 2 then None
    else if s[0] == ':' && s[1] == '=' then Some(0)
    else
      match IndexOfAssign(s[1..])
      case None => None
      case Some(i) => Some(i + 1)
  }

  /** A `key:=value` clause split at its first `:=`; None when it has none. */
  function ParseClause(clause: string): Option<(string, string)>
  {
    match IndexOfAssign(clause)
    case None => None
    case Some(i) => Some((clause[..i], clause[i + 2..]))
  }

  /** The setting a clause makes: `wait-for-dependencies:=true` or `:=false`;
      any other clause (unknown key, other value, no `:=`) sets nothing. */
  function WaitClause(clause: string): Option<bool>
  {
    match ParseClause(clause)
    case Some((key, value)) =>
      if key == WAIT_FOR_DEPENDENCIES && value == "true" then Some(true)
      else if key == WAIT_FOR_DEPENDENCIES && value == "false" then Some(false)
      else None
    case None => None
  }

  /** The last setting in a list of possible settings: later settings
      override earlier ones, and absent ones change nothing. */
  function LastSetting(settings: seq<Option<bool>>): Option<bool>
    decreases |settings|
  {
    if |settings| == 0 then None
    else if settings[|settings| - 1].Some? then settings[|settings| - 1]
    else LastSetting(settings[..|settings| - 1])
  }

  /** The settings a list of clauses makes, clause by clause. */
  function ClauseSettings(clauses: seq<string>): seq<Option<bool>>
  {
    seq(|clauses|, i requires 0 <= i < |clauses| => WaitClause(clauses[i]))
  }

  /** The target a path token names. */
  function TargetOf(token: string): Target
  {
    if token == "" then NoTarget
    else if token == WILDCARD then Wildcard
    else Path(token)
  }

  /** One segment: its path token before the first `;`, its clauses after. */
  function ParseDirective(segment: string): Directive
  {
    var pieces := Split(segment, CLAUSE_SEPARATOR);
    Directive(TargetOf(pieces[0]), LastSetting(ClauseSettings(pieces[1..])))
  }

  function ParseDirectives(segments: seq<string>): (ds: seq<Directive>)
    ensures |ds| == |segments|
    ensures forall i :: 0 <= i < |ds| ==> ds[i] == ParseDirective(segments[i])
    decreases |segments|
  {
    if |segments| == 0 then []
    else [ParseDirective(segments[0])] + ParseDirectives(segments[1..])
  }

  /** The directives of a header value, in header order; empty segments
      (a trailing comma, two commas in a row) are dropped. */
  function ParseHeader(header: string): seq<Directive>
  {
    ParseDirectives(DropEmpty(Split(header, DIRECTIVE_SEPARATOR)))
  }

  // The header text a directive list stands for: the partner of the parser.

  function TargetText(t: Target): string
  {
    match t
    case NoTarget => ""
    case Wildcard => WILDCARD
    case Path(p) => p
  }

  function BoolText(v: bool): string
  {
    if v then "true" else "false"
  }

  function RenderDirective(d: Directive): string
  {
    match d.wait
    case None => TargetText(d.target)
    case Some(v) => TargetText(d.target) + [CLAUSE_SEPARATOR] + WAIT_FOR_DEPENDENCIES + ASSIGN + BoolText(v)
  }

  function RenderDirectives(ds: seq<Directive>): (texts: seq<string>)
    ensures |texts| == |ds|
    ensures forall i :: 0 <= i < |ds| ==> texts[i] == RenderDirective(ds[i])
    decreases |ds|
  {
    if |ds| == 0 then [] else [RenderDirective(ds[0])] + RenderDirectives(ds[1..])
  }

  function RenderHeader(ds: seq<Directive>): string
  {
    Join(RenderDirectives(ds), DIRECTIVE_SEPARATOR)
  }

  /** A directive the header syntax can express: a path is neither empty nor
      `*` and holds no separator, and a directive without a target carries
      a setting (otherwise its segment would be empty and dropped). */
  predicate WellFormed(d: Directive)
  {
    match d.target
    case NoTarget => d.wait.Some?
    case Wildcard => true
    case Path(p) => p != "" && p != WILDCARD && DIRECTIVE_SEPARATOR !in p && CLAUSE_SEPARATOR !in p
  }

  /** A clause is split at its `:=` when the key holds no colon. */
  lemma ParseClauseOf(key: string, value: string)
    requires ':' !in key
    ensures ParseClause(key + ASSIGN + value) == Some((key, value))
  {
    var s := key + ASSIGN + value;
    assert s[|key|] == ':' && s[|key| + 1] == '=';
    var r := IndexOfAssign(s);
    assert r.Some?;
    assert s[..|key|] == key && s[|key| + 2..] == value;
  }

  /** The clause a setting renders to is read back as that setting. */
  lemma WaitClauseOf(v: bool)
    ensures WaitClause(WAIT_FOR_DEPENDENCIES + ASSIGN + BoolText(v)) == Some(v)
  {
    ParseClauseOf(WAIT_FOR_DEPENDENCIES, BoolText(v));
  }

  /** A rendered setting holds neither separator. */
  lemma ClauseTextPlain(v: bool)
    ensures DIRECTIVE_SEPARATOR !in WAIT_FOR_DEPENDENCIES + ASSIGN + BoolText(v)
    ensures CLAUSE_SEPARATOR !in WAIT_FOR_DEPENDENCIES + ASSIGN + BoolText(v)
  {
    var clause := WAIT_FOR_DEPENDENCIES + ASSIGN + BoolText(v);
    assert forall i :: 0 <= i < |clause| ==> clause[i] != DIRECTIVE_SEPARATOR && clause[i] != CLAUSE_SEPARATOR;
  }

  /** A path token and one clause split apart at the `;` between them. */
  lemma SplitTokenClause(token: string, clause: string)
    requires CLAUSE_SEPARATOR !in token && CLAUSE_SEPARATOR !in clause
    ensures Split(token + [CLAUSE_SEPARATOR] + clause, CLAUSE_SEPARATOR) == [token, clause]
  {
    SplitAround(token, CLAUSE_SEPARATOR, clause);
    SplitWithout(token, CLAUSE_SEPARATOR);
    SplitWithout(clause, CLAUSE_SEPARATOR);
  }

  /** Parsing a rendered directive gives the directive back. */
  lemma ParseRenderDirective(d: Directive)
    requires WellFormed(d)
    ensures ParseDirective(RenderDirective(d)) == d
  {
    var token := TargetText(d.target);
    assert CLAUSE_SEPARATOR !in token;
    assert TargetOf(token) == d.target;
    match d.wait
    case None =>
      assert RenderDirective(d) == token;
      SplitWithout(token, CLAUSE_SEPARATOR);
    case Some(v) =>
      var clause := WAIT_FOR_DEPENDENCIES + ASSIGN + BoolText(v);
      assert RenderDirective(d) == token + [CLAUSE_SEPARATOR] + clause;
      ClauseTextPlain(v);
      SplitTokenClause(token, clause);
      WaitClauseOf(v);
      assert ClauseSettings([clause]) == [Some(v)];
  }

  /** The rendered text of a well-formed directive is a non-empty segment. */
  lemma RenderedSegment(d: Directive)
    requires WellFormed(d)
    ensures RenderDirective(d) != "" && DIRECTIVE_SEPARATOR !in RenderDirective(d)
  {
    var token := TargetText(d.target);
    assert DIRECTIVE_SEPARATOR !in token;
    if d.wait.Some? {
      var clause := WAIT_FOR_DEPENDENCIES + ASSIGN + BoolText(d.wait.value);
      ClauseTextPlain(d.wait.value);
      assert RenderDirective(d) == token + [CLAUSE_SEPARATOR] + clause;
    }
  }

  /** Round trip: a header rendered from well-formed directives parses back
      to exactly those directives, in the same order. */
  lemma ParseRenderHeader(ds: seq<Directive>)
    requires forall i :: 0 <= i < |ds| ==> WellFormed(ds[i])
    ensures ParseHeader(RenderHeader(ds)) == ds
  {
    var texts := RenderDirectives(ds);
    forall i | 0 <= i < |texts|
      ensures texts[i] != "" && DIRECTIVE_SEPARATOR !in texts[i]
    {
      RenderedSegment(ds[i]);
    }
    if |ds| == 0 {
      assert Split("", DIRECTIVE_SEPARATOR) == [""];
    } else {
      SplitJoin(texts, DIRECTIVE_SEPARATOR);
      DropEmptyKeepsAll(texts);
      forall i | 0 <= i < |ds| ensures ParseDirective(texts[i]) == ds[i] {
        ParseRenderDirective(ds[i]);
      }
    }
  }

  /** A header of one well-formed directive parses to that directive. */
  lemma ParseSingleDirective(d: Directive)
    requires WellFormed(d)
    ensures ParseHeader(RenderDirective(d)) == [d]
  {
    assert RenderHeader([d]) == RenderDirective(d);
    ParseRenderHeader([d]);
  }

  /** Header order is directive order: two headers joined by a comma parse
      to the directives of the first followed by those of the second. */
  lemma ParseHeaderAppend(h1: string, h2: string)
    ensures ParseHeader(h1 + [DIRECTIVE_SEPARATOR] + h2) == ParseHeader(h1) + ParseHeader(h2)
  {
    SplitAround(h1, DIRECTIVE_SEPARATOR, h2);
    DropEmptyAppend(Split(h1, DIRECTIVE_SEPARATOR), Split(h2, DIRECTIVE_SEPARATOR));
  }

  /** Only a non-empty segment becomes a directive: the empty header has none. */
  lemma ParseEmptyHeader()
    ensures ParseHeader("") == []
  {
    assert Split("", DIRECTIVE_SEPARATOR) == [""];
  }

  /** A list without any setting makes none, so the default applies. */
  lemma {:induction false} LastSettingUnset(settings: seq<Option<bool>>)
    requires forall i :: 0 <= i < |settings| ==> settings[i].None?
    ensures LastSetting(settings) == None
    decreases |settings|
  {
    if |settings| > 0 {
      LastSettingUnset(settings[..|settings| - 1]);
    }
  }

  /** When some setting is `v` and every setting made is `v`, the result is
      `v` wherever in the list those settings stand. */
  lemma {:induction false} LastSettingAgreed(settings: seq<Option<bool>>, v: bool)
    requires exists i :: 0 <= i < |settings| && settings[i] == Some(v)
    requires forall i :: 0 <= i < |settings| && settings[i].Some? ==> settings[i] == Some(v)
    ensures LastSetting(settings) == Some(v)
    decreases |settings|
  {
    var n := |settings|;
    if settings[n - 1].None? {
      var i :| 0 <= i < n && settings[i] == Some(v);
      assert settings[..n - 1][i] == settings[i];
      LastSettingAgreed(settings[..n - 1], v);
    }
  }
}
