/** The decision an extender makes for one bundle: is it Spring powered,
    which configuration locations build its application context, and must
    context creation wait for the bundle's service dependencies. */
module ContextConfiguration {
  import opened Optional
  import opened ManifestHeader

  /** Prefix of a location declared by path in the header. */
  const BUNDLE_PREFIX := "bundle:"
  /** Prefix of a location found by scanning the XML files of `META-INF/spring`. */
  const BUNDLE_URL_PREFIX := "bundle-url:"

  /** What the configuration reads from a bundle: the value of its
      `Spring-Context` header, if it has one; the URLs of the
      XML entries of `META-INF/spring`, in the order the bundle finds them;
      and the entry paths the bundle can resolve. */
  datatype Bundle = Bundle(header: Option<string>, discovered: seq<string>, resolvable: set<string>)

  /** The origin of a configuration location: a header path or a discovered URL. */
  datatype Source = Declared(path: string) | Discovered(url: string)

  function LocationOf(s: Source): string
  {
    match s
    case Declared(p) => BUNDLE_PREFIX + p
    case Discovered(u) => BUNDLE_URL_PREFIX + u
  }

  predicate HasPrefix(s: string, prefix: string)
  {
    |prefix| <= |s| && s[..|prefix|] == prefix
  }

  /** How a consumer of a location tells its origin: by its prefix. */
  function SourceOf(location: string): Option<Source>
  {
    if HasPrefix(location, BUNDLE_URL_PREFIX) then Some(Discovered(location[|BUNDLE_URL_PREFIX|..]))
    else if HasPrefix(location, BUNDLE_PREFIX) then Some(Declared(location[|BUNDLE_PREFIX|..]))
    else None
  }

  /** The discovered entries as locations, in discovery order. */
  function DiscoveredLocations(urls: seq<string>): seq<string>
    decreases |urls|
  {
    if |urls| == 0 then [] else [LocationOf(Discovered(urls[0]))] + DiscoveredLocations(urls[1..])
  }

  /** What one directive contributes: `*` every discovered entry, a path
      its own location if the bundle resolves it and nothing otherwise. */
  function DirectiveLocations(d: Directive, b: Bundle): seq<string>
  {
    match d.target
    case NoTarget => []
    case Wildcard => DiscoveredLocations(b.discovered)
    case Path(p) => if p in b.resolvable then [LocationOf(Declared(p))] else []
  }

  /** The contributions of the directives, concatenated in header order. */
  function DeclaredLocations(ds: seq<Directive>, b: Bundle): seq<string>
    decreases |ds|
  {
    if |ds| == 0 then [] else DirectiveLocations(ds[0], b) + DeclaredLocations(ds[1..], b)
  }

  /** The header decides only when it is present and not empty. */
  predicate HeaderGiven(b: Bundle)
  {
    b.header.Some? && b.header.value != ""
  }

  function Directives(b: Bundle): seq<Directive>
    requires HeaderGiven(b)
  {
    ParseHeader(b.header.value)
  }

  /** `getConfigurationLocations`. */
  function ConfigurationLocations(b: Bundle): seq<string>
  {
    if HeaderGiven(b) then DeclaredLocations(Directives(b), b)
    else DiscoveredLocations(b.discovered)
  }

  /** `isSpringPoweredBundle`. */
  function IsSpringPoweredBundle(b: Bundle): bool
  {
    |ConfigurationLocations(b)| > 0
  }

  /** The settings of the directives, directive by directive. */
  function DirectiveSettings(ds: seq<Directive>): (settings: seq<Option<bool>>)
    ensures |settings| == |ds|
    ensures forall i :: 0 <= i < |ds| ==> settings[i] == ds[i].wait
  {
    seq(|ds|, i requires 0 <= i < |ds| => ds[i].wait)
  }

  /** The setting of the last directive that carries one. */
  function HeaderWait(ds: seq<Directive>): Option<bool>
  {
    LastSetting(DirectiveSettings(ds))
  }

  /** `waitForDependencies`: true unless the header says otherwise. */
  function WaitForDependencies(b: Bundle): bool
  {
    if HeaderGiven(b) then HeaderWait(Directives(b)).GetOr(true) else true
  }

  // ---------------------------------------------------------------------
  // Where the locations come from

  /** A location's prefix gives back the source it was made from. */
  lemma SourceOfLocationOf(s: Source)
    ensures SourceOf(LocationOf(s)) == Some(s)
  {
    var loc := LocationOf(s);
    match s
    case Declared(p) =>
      assert loc[6] == ':';
      assert loc[..|BUNDLE_PREFIX|] == BUNDLE_PREFIX;
      assert loc[|BUNDLE_PREFIX|..] == p;
    case Discovered(u) =>
      assert loc[..|BUNDLE_URL_PREFIX|] == BUNDLE_URL_PREFIX;
      assert loc[|BUNDLE_URL_PREFIX|..] == u;
  }

  /** A location that decodes to a source is that source's location. */
  lemma LocationOfSourceOf(location: string)
    requires SourceOf(location).Some?
    ensures LocationOf(SourceOf(location).value) == location
  {
    if HasPrefix(location, BUNDLE_URL_PREFIX) {
      assert location == location[..|BUNDLE_URL_PREFIX|] + location[|BUNDLE_URL_PREFIX|..];
    } else {
      assert location == location[..|BUNDLE_PREFIX|] + location[|BUNDLE_PREFIX|..];
    }
  }

  /** The discovered locations are the entries, each prefixed `bundle-url:`,
      in discovery order. */
  lemma {:induction false} DiscoveredLocationsAt(urls: seq<string>)
    ensures |DiscoveredLocations(urls)| == |urls|
    ensures forall i :: 0 <= i < |urls| ==> DiscoveredLocations(urls)[i] == BUNDLE_URL_PREFIX + urls[i]
    decreases |urls|
  {
    if |urls| > 0 {
      DiscoveredLocationsAt(urls[1..]);
    }
  }

  /** Concatenation of directive lists concatenates their locations. */
  lemma {:induction false} DeclaredLocationsAppend(ds1: seq<Directive>, ds2: seq<Directive>, b: Bundle)
    ensures DeclaredLocations(ds1 + ds2, b) == DeclaredLocations(ds1, b) + DeclaredLocations(ds2, b)
    decreases |ds1|
  {
    if |ds1| == 0 {
      assert ds1 + ds2 == ds2;
    } else {
      assert (ds1 + ds2)[0] == ds1[0];
      assert (ds1 + ds2)[1..] == ds1[1..] + ds2;
      DeclaredLocationsAppend(ds1[1..], ds2, b);
    }
  }

  /** A location is declared exactly when one of the directives yields it. */
  lemma {:induction false} DeclaredLocationsMember(ds: seq<Directive>, b: Bundle, location: string)
    ensures location in DeclaredLocations(ds, b) <==> exists d :: d in ds && location in DirectiveLocations(d, b)
    decreases |ds|
  {
    if |ds| > 0 {
      DeclaredLocationsMember(ds[1..], b, location);
      assert forall d :: d in ds <==> d == ds[0] || d in ds[1..];
    }
  }

  /** Some directive yields a location exactly when the list yields one. */
  lemma {:induction false} DeclaredLocationsNonEmpty(ds: seq<Directive>, b: Bundle)
    ensures |DeclaredLocations(ds, b)| > 0 <==> exists d :: d in ds && |DirectiveLocations(d, b)| > 0
    decreases |ds|
  {
    if |ds| > 0 {
      DeclaredLocationsNonEmpty(ds[1..], b);
      assert forall d :: d in ds <==> d == ds[0] || d in ds[1..];
    }
  }

  /** Whether the bundle contributes the given source: a discovered entry
      when there is no header or the header has a `*` directive; a declared
      path when the header names it and the bundle resolves it. */
  predicate Contributes(b: Bundle, s: Source)
  {
    match s
    case Discovered(u) =>
      u in b.discovered && (!HeaderGiven(b) || exists d :: d in Directives(b) && d.target == Wildcard)
    case Declared(p) =>
      HeaderGiven(b) && p in b.resolvable && exists d :: d in Directives(b) && d.target == Path(p)
  }

  lemma DiscoveredMember(urls: seq<string>, location: string)
    ensures location in DiscoveredLocations(urls) <==>
      SourceOf(location).Some? && SourceOf(location).value.Discovered? && SourceOf(location).value.url in urls
  {
    DiscoveredLocationsAt(urls);
    var locs := DiscoveredLocations(urls);
    if location in locs {
      var i :| 0 <= i < |locs| && locs[i] == location;
      SourceOfLocationOf(Discovered(urls[i]));
    }
    if SourceOf(location).Some? && SourceOf(location).value.Discovered? && SourceOf(location).value.url in urls {
      var u := SourceOf(location).value.url;
      LocationOfSourceOf(location);
      var i :| 0 <= i < |urls| && urls[i] == u;
      assert locs[i] == location;
    }
  }

  lemma DirectiveMember(d: Directive, b: Bundle, location: string)
    ensures location in DirectiveLocations(d, b) <==>
      SourceOf(location).Some? &&
      (match SourceOf(location).value
       case Discovered(u) => d.target == Wildcard && u in b.discovered
       case Declared(p) => d.target == Path(p) && p in b.resolvable)
  {
    DiscoveredMember(b.discovered, location);
    match d.target
    case NoTarget =>
    case Wildcard =>
    case Path(p) =>
      SourceOfLocationOf(Declared(p));
      if SourceOf(location).Some? {
        LocationOfSourceOf(location);
      }
  }

  // ---------------------------------------------------------------------
  // What the tests pin down, stated for every bundle

  /** Every configuration location comes from a source the bundle
      contributes, and every contributed source is among the locations. */
  lemma LocationsCharacterised(b: Bundle, location: string)
    ensures location in ConfigurationLocations(b) <==>
      SourceOf(location).Some? && Contributes(b, SourceOf(location).value)
  {
    if HeaderGiven(b) {
      var ds := Directives(b);
      DeclaredLocationsMember(ds, b, location);
      forall d | d in ds
        ensures location in DirectiveLocations(d, b) <==>
          SourceOf(location).Some? &&
          (match SourceOf(location).value
           case Discovered(u) => d.target == Wildcard && u in b.discovered
           case Declared(p) => d.target == Path(p) && p in b.resolvable)
      {
        DirectiveMember(d, b, location);
      }
    } else {
      DiscoveredMember(b.discovered, location);
    }
  }

  /** Whether one directive yields a location for the bundle. */
  predicate Yields(d: Directive, b: Bundle)
  {
    (d.target == Wildcard && |b.discovered| > 0) || (d.target.Path? && d.target.path in b.resolvable)
  }

  /** Powered exactly when a header directive yields a location, or, with
      no header, when some entry was discovered. */
  lemma PoweredIff(b: Bundle)
    ensures IsSpringPoweredBundle(b) <==>
      if HeaderGiven(b) then (exists d :: d in Directives(b) && Yields(d, b))
      else |b.discovered| > 0
  {
    DiscoveredLocationsAt(b.discovered);
    if HeaderGiven(b) {
      var ds := Directives(b);
      DeclaredLocationsNonEmpty(ds, b);
      forall d | d in ds ensures |DirectiveLocations(d, b)| > 0 <==> Yields(d, b) {
      }
    }
  }

  /** With no header the locations are the discovered entries, each
      prefixed `bundle-url:`, in discovery order; the bundle is powered
      exactly when there is one, and then waits for its dependencies. */
  lemma NoHeader(b: Bundle)
    requires !HeaderGiven(b)
    ensures |ConfigurationLocations(b)| == |b.discovered|
    ensures forall i :: 0 <= i < |b.discovered| ==>
      ConfigurationLocations(b)[i] == BUNDLE_URL_PREFIX + b.discovered[i]
    ensures IsSpringPoweredBundle(b) <==> |b.discovered| > 0
    ensures WaitForDependencies(b)
  {
    DiscoveredLocationsAt(b.discovered);
  }

  /** Header order is location order: the directives of `h1` contribute
      before those of `h2` in the header `h1,h2`. */
  lemma HeaderOrder(b: Bundle, h1: string, h2: string)
    requires b.header == Some(h1 + [DIRECTIVE_SEPARATOR] + h2)
    ensures HeaderGiven(b)
    ensures ConfigurationLocations(b) ==
      DeclaredLocations(ParseHeader(h1), b) + DeclaredLocations(ParseHeader(h2), b)
  {
    assert b.header.value[|h1|] == DIRECTIVE_SEPARATOR;
    ParseHeaderAppend(h1, h2);
    DeclaredLocationsAppend(ParseHeader(h1), ParseHeader(h2), b);
  }

  /** A header naming one literal path declares exactly that path when the
      bundle resolves it, prefixed `bundle:` (the path, not the entry's URL),
      and nothing otherwise; discovered entries are not added. */
  lemma SingleLiteralPath(b: Bundle, p: string)
    requires b.header == Some(p)
    requires WellFormed(Directive(Path(p), None))
    ensures ConfigurationLocations(b) == if p in b.resolvable then [BUNDLE_PREFIX + p] else []
    ensures IsSpringPoweredBundle(b) <==> p in b.resolvable
    ensures WaitForDependencies(b)
  {
    var ds := [Directive(Path(p), None)];
    assert RenderHeader(ds) == p;
    ParseRenderHeader(ds);
    assert DeclaredLocations(ds, b) == DirectiveLocations(ds[0], b);
    assert HeaderGiven(b) && Directives(b) == ds;
    LastSettingUnset(DirectiveSettings(ds));
  }

  /** A `*` directive on its own behaves as the absent header for the
      locations: the discovered entries, prefixed and in order; its
      setting, if any, decides the wait flag. */
  lemma WildcardAlone(b: Bundle, wait: Option<bool>)
    requires b.header == Some(RenderHeader([Directive(Wildcard, wait)]))
    ensures ConfigurationLocations(b) == ConfigurationLocations(b.(header := None))
    ensures IsSpringPoweredBundle(b) <==> |b.discovered| > 0
    ensures WaitForDependencies(b) == wait.GetOr(true)
  {
    var ds := [Directive(Wildcard, wait)];
    assert RenderHeader(ds) == RenderDirective(ds[0]);
    assert RenderDirective(ds[0])[0] == '*';
    ParseRenderHeader(ds);
    assert DeclaredLocations(ds, b) == DirectiveLocations(ds[0], b);
    DiscoveredLocationsAt(b.discovered);
    assert HeaderGiven(b) && Directives(b) == ds;
    assert DirectiveSettings(ds) == [wait];
    assert DirectiveSettings(ds)[..0] == [];
    assert HeaderWait(ds) == wait;
  }

  /** When no directive carries a setting the header sets nothing. */
  lemma HeaderWaitUnset(ds: seq<Directive>)
    requires forall i :: 0 <= i < |ds| ==> ds[i].wait.None?
    ensures HeaderWait(ds) == None
  {
    LastSettingUnset(DirectiveSettings(ds));
  }

  /** When every directive that carries a setting carries `v`, and one
      does, the header sets `v` wherever those directives stand. */
  lemma HeaderWaitAgreed(ds: seq<Directive>, v: bool)
    requires exists i :: 0 <= i < |ds| && ds[i].wait == Some(v)
    requires forall i :: 0 <= i < |ds| && ds[i].wait.Some? ==> ds[i].wait == Some(v)
    ensures HeaderWait(ds) == Some(v)
  {
    var settings := DirectiveSettings(ds);
    var i :| 0 <= i < |ds| && ds[i].wait == Some(v);
    assert settings[i] == Some(v);
    LastSettingAgreed(settings, v);
  }

  /** The wait flag follows the attribute whichever directive carries it,
      and is true when none does. */
  lemma WaitFollowsAttribute(b: Bundle, v: bool)
    requires HeaderGiven(b)
    ensures (forall i :: 0 <= i < |Directives(b)| ==> Directives(b)[i].wait.None?) ==> WaitForDependencies(b)
    ensures (exists i :: 0 <= i < |Directives(b)| && Directives(b)[i].wait == Some(v)) &&
      (forall i :: 0 <= i < |Directives(b)| && Directives(b)[i].wait.Some? ==> Directives(b)[i].wait == Some(v))
      ==> WaitForDependencies(b) == v
  {
    var ds := Directives(b);
    assert WaitForDependencies(b) == HeaderWait(ds).GetOr(true);
    if forall i :: 0 <= i < |ds| ==> ds[i].wait.None? {
      HeaderWaitUnset(ds);
    }
    if (exists i :: 0 <= i < |ds| && ds[i].wait == Some(v)) &&
      (forall i :: 0 <= i < |ds| && ds[i].wait.Some? ==> ds[i].wait == Some(v))
    {
      HeaderWaitAgreed(ds, v);
    }
  }
}
