/** The scenarios of ApplicationContextConfigurationTest, each evaluated on
    the model. A bundle's `findEntries` answer becomes `discovered` (a null
    answer is the empty sequence) and the entry its `getEntry` answers
    becomes the one path in `resolvable`. */
module ApplicationContextConfigurationTests {
  import opened Optional
  import opened ManifestHeader
  import opened ContextConfiguration

  const CONTEXT := "META-INF/spring/context.xml"
  const CONTEXT_TWO := "META-INF/spring/context-two.xml"
  const SPLURGE := "META-INF/splurge/context.xml"

  const CONTEXT_URL := "file://META-INF/spring/context.xml"
  const CONTEXT_TWO_URL := "file://META-INF/spring/context-two.xml"

  /** The entries the bundles of the suite find under `META-INF/spring`. */
  const META_INF_SPRING_CONTENT := [CONTEXT_URL, CONTEXT_TWO_URL]

  // The headers of the suite, written as their pieces.

  /** `*;wait-for-dependencies:=true` */
  const WILDCARD_WAIT := "*" + ";" + "wait-for-dependencies" + ":=" + "true"
  /** `*;wait-for-dependencies:=false` */
  const WILDCARD_NO_WAIT := "*" + ";" + "wait-for-dependencies" + ":=" + "false"
  /** `META-INF/spring/context.xml;wait-for-dependencies:=false` */
  const CONTEXT_NO_WAIT := CONTEXT + ";" + "wait-for-dependencies" + ":=" + "false"

  /** `META-INF/spring/context.xml,*;wait-for-dependencies:=false` */
  const WAIT_AT_END := CONTEXT + "," + WILDCARD_NO_WAIT
  /** `META-INF/spring/context.xml;wait-for-dependencies:=false,*` */
  const WAIT_AT_START := CONTEXT_NO_WAIT + "," + "*"
  /** `META-INF/spring/context-two.xml,META-INF/splurge/context.xml,` */
  const BAD_ENTRY := CONTEXT_TWO + "," + SPLURGE + ","

  // Facts about the literal texts, one per lemma so that each is checked
  // in a small context.

  /** A path without separators that is not `*` is a directive of its own. */
  lemma PlainPath(p: string, wait: Option<bool>)
    requires p != "" && p != WILDCARD
    requires forall i :: 0 <= i < |p| ==> p[i] != DIRECTIVE_SEPARATOR && p[i] != CLAUSE_SEPARATOR
    ensures WellFormed(Directive(Path(p), wait))
    ensures RenderDirective(Directive(Path(p), None)) == p
  {
    assert p + "" == p;
  }

  lemma ContextPlain(wait: Option<bool>)
    ensures WellFormed(Directive(Path(CONTEXT), wait))
    ensures RenderDirective(Directive(Path(CONTEXT), None)) == CONTEXT
  {
    assert forall i :: 0 <= i < |CONTEXT| ==> CONTEXT[i] != ',' && CONTEXT[i] != ';';
    assert CONTEXT != WILDCARD;
    PlainPath(CONTEXT, wait);
  }

  lemma ContextTwoPlain()
    ensures WellFormed(Directive(Path(CONTEXT_TWO), None))
    ensures RenderDirective(Directive(Path(CONTEXT_TWO), None)) == CONTEXT_TWO
  {
    assert forall i :: 0 <= i < |CONTEXT_TWO| ==> CONTEXT_TWO[i] != ',' && CONTEXT_TWO[i] != ';';
    assert CONTEXT_TWO != WILDCARD;
    PlainPath(CONTEXT_TWO, None);
  }

  lemma SplurgePlain()
    ensures WellFormed(Directive(Path(SPLURGE), None))
    ensures RenderDirective(Directive(Path(SPLURGE), None)) == SPLURGE
  {
    assert forall i :: 0 <= i < |SPLURGE| ==> SPLURGE[i] != ',' && SPLURGE[i] != ';';
    assert SPLURGE != WILDCARD;
    PlainPath(SPLURGE, None);
  }

  lemma WildcardWaitText()
    ensures WILDCARD_WAIT == RenderDirective(Directive(Wildcard, Some(true)))
  {
  }

  lemma WildcardNoWaitText()
    ensures WILDCARD_NO_WAIT == RenderDirective(Directive(Wildcard, Some(false)))
  {
  }

  lemma WildcardNoWaitHeader()
    ensures WILDCARD_NO_WAIT == RenderHeader([Directive(Wildcard, Some(false))])
  {
    WildcardNoWaitText();
  }

  lemma ContextNoWaitText()
    ensures CONTEXT_NO_WAIT == RenderDirective(Directive(Path(CONTEXT), Some(false)))
  {
  }

  /** A header of the one directive `d` stands for `d` alone. */
  lemma SoleDirective(b: Bundle, d: Directive)
    requires WellFormed(d)
    requires b.header == Some(RenderDirective(d))
    ensures HeaderGiven(b) && Directives(b) == [d]
  {
    ParseSingleDirective(d);
  }

  lemma DiscoveredTexts()
    ensures DiscoveredLocations(META_INF_SPRING_CONTENT) ==
      ["bundle-url:" + CONTEXT_URL, "bundle-url:" + CONTEXT_TWO_URL]
  {
    DiscoveredLocationsAt(META_INF_SPRING_CONTENT);
  }

  // The scenarios, one lemma per test method.

  lemma BundleWithNoHeaderAndNoMetaInfSpringResourcesIsNotSpringPowered()
    ensures !IsSpringPoweredBundle(Bundle(None, [], {}))
  {
  }

  lemma BundleWithSpringResourcesAndNoHeaderIsSpringPowered()
    ensures IsSpringPoweredBundle(Bundle(None, META_INF_SPRING_CONTENT, {}))
  {
    NoHeader(Bundle(None, META_INF_SPRING_CONTENT, {}));
  }

  lemma BundleWithHeaderAndNoMetaInfResourcesIsSpringPowered()
    ensures IsSpringPoweredBundle(Bundle(Some(CONTEXT), [], {CONTEXT}))
  {
    ContextPlain(None);
    SingleLiteralPath(Bundle(Some(CONTEXT), [], {CONTEXT}), CONTEXT);
  }

  lemma BundleWithHeaderWithBadEntriesAndNoMetaInfResourcesIsNotSpringPowered()
    ensures !IsSpringPoweredBundle(Bundle(Some(SPLURGE), [], {}))
  {
    SplurgePlain();
    SingleLiteralPath(Bundle(Some(SPLURGE), [], {}), SPLURGE);
  }

  lemma BundleWithNoHeaderShouldWaitForDependencies()
    ensures WaitForDependencies(Bundle(None, META_INF_SPRING_CONTENT, {}))
  {
  }

  lemma BundleWithWaitTrueShouldWaitForDependencies()
    ensures WaitForDependencies(Bundle(Some(WILDCARD_WAIT), META_INF_SPRING_CONTENT, {}))
  {
    var b := Bundle(Some(WILDCARD_WAIT), META_INF_SPRING_CONTENT, {});
    WildcardWaitText();
    SoleDirective(b, Directive(Wildcard, Some(true)));
  }

  lemma WaitFalseAlone()
    ensures !WaitForDependencies(Bundle(Some(WILDCARD_NO_WAIT), META_INF_SPRING_CONTENT, {}))
  {
    var b := Bundle(Some(WILDCARD_NO_WAIT), META_INF_SPRING_CONTENT, {});
    WildcardNoWaitText();
    SoleDirective(b, Directive(Wildcard, Some(false)));
  }

  /** A header of two directives `d1,d2` stands for `d1` then `d2`. */
  lemma TwoDirectives(b: Bundle, d1: Directive, d2: Directive)
    requires WellFormed(d1) && WellFormed(d2)
    requires b.header == Some(RenderDirective(d1) + [DIRECTIVE_SEPARATOR] + RenderDirective(d2))
    ensures HeaderGiven(b) && Directives(b) == [d1, d2]
  {
    ParseHeaderAppend(RenderDirective(d1), RenderDirective(d2));
    ParseSingleDirective(d1);
    ParseSingleDirective(d2);
  }

  lemma WaitFalseAtEnd()
    ensures !WaitForDependencies(Bundle(Some(WAIT_AT_END), META_INF_SPRING_CONTENT, {CONTEXT}))
  {
    var first, last := Directive(Path(CONTEXT), None), Directive(Wildcard, Some(false));
    ContextPlain(None);
    WildcardNoWaitText();
    var b := Bundle(Some(WAIT_AT_END), META_INF_SPRING_CONTENT, {CONTEXT});
    TwoDirectives(b, first, last);
    assert DirectiveSettings([first, last]) == [None, Some(false)];
  }

  lemma WaitFalseAtStart()
    ensures !WaitForDependencies(Bundle(Some(WAIT_AT_START), META_INF_SPRING_CONTENT, {CONTEXT}))
  {
    var first, last := Directive(Path(CONTEXT), Some(false)), Directive(Wildcard, None);
    ContextPlain(Some(false));
    ContextNoWaitText();
    var b := Bundle(Some(WAIT_AT_START), META_INF_SPRING_CONTENT, {CONTEXT});
    TwoDirectives(b, first, last);
    assert DirectiveSettings([first, last]) == [Some(false), None];
    assert [Some(false), None][..1] == [Some(false)];
  }

  /** The three placements of `wait-for-dependencies:=false` of the test:
      on the sole directive, on the last one and on the first of two. */
  lemma BundleWithWaitFalseShouldNotWaitForDependencies()
    ensures !WaitForDependencies(Bundle(Some(WILDCARD_NO_WAIT), META_INF_SPRING_CONTENT, {}))
    ensures !WaitForDependencies(Bundle(Some(WAIT_AT_END), META_INF_SPRING_CONTENT, {CONTEXT}))
    ensures !WaitForDependencies(Bundle(Some(WAIT_AT_START), META_INF_SPRING_CONTENT, {CONTEXT}))
  {
    WaitFalseAlone();
    WaitFalseAtEnd();
    WaitFalseAtStart();
  }

  lemma ConfigLocationsInMetaInfNoHeader()
    ensures ConfigurationLocations(Bundle(None, META_INF_SPRING_CONTENT, {})) ==
      ["bundle-url:" + CONTEXT_URL, "bundle-url:" + CONTEXT_TWO_URL]
  {
    DiscoveredTexts();
  }

  lemma ConfigLocationsInMetaInfWithHeader()
    ensures ConfigurationLocations(Bundle(Some(CONTEXT), META_INF_SPRING_CONTENT, {CONTEXT})) ==
      ["bundle:" + CONTEXT]
  {
    ContextPlain(None);
    SingleLiteralPath(Bundle(Some(CONTEXT), META_INF_SPRING_CONTENT, {CONTEXT}), CONTEXT);
  }

  lemma ConfigLocationsInMetaInfWithWildcardHeader()
    ensures ConfigurationLocations(Bundle(Some(WILDCARD_NO_WAIT), META_INF_SPRING_CONTENT, {})) ==
      ["bundle-url:" + CONTEXT_URL, "bundle-url:" + CONTEXT_TWO_URL]
  {
    var b := Bundle(Some(WILDCARD_NO_WAIT), META_INF_SPRING_CONTENT, {});
    WildcardNoWaitHeader();
    WildcardAlone(b, Some(false));
    DiscoveredTexts();
  }

  lemma HeaderWithWildcardEntryAndNoMetaInfResources()
    ensures !IsSpringPoweredBundle(Bundle(Some(WILDCARD_NO_WAIT), [], {}))
  {
    WildcardNoWaitHeader();
    WildcardAlone(Bundle(Some(WILDCARD_NO_WAIT), [], {}), Some(false));
  }

  lemma BadEntryDirectives()
    ensures ParseHeader(CONTEXT_TWO + [DIRECTIVE_SEPARATOR] + SPLURGE) ==
      [Directive(Path(CONTEXT_TWO), None), Directive(Path(SPLURGE), None)]
  {
    ContextTwoPlain();
    SplurgePlain();
    ParseHeaderAppend(CONTEXT_TWO, SPLURGE);
    ParseSingleDirective(Directive(Path(CONTEXT_TWO), None));
    ParseSingleDirective(Directive(Path(SPLURGE), None));
  }

  /** An unresolvable path and the empty segment after the trailing comma
      contribute nothing. */
  lemma HeaderWithBadEntry()
    ensures IsSpringPoweredBundle(Bundle(Some(BAD_ENTRY), [], {CONTEXT_TWO}))
    ensures ConfigurationLocations(Bundle(Some(BAD_ENTRY), [], {CONTEXT_TWO})) ==
      ["bundle:" + CONTEXT_TWO]
  {
    var listed := CONTEXT_TWO + [DIRECTIVE_SEPARATOR] + SPLURGE;
    var b := Bundle(Some(BAD_ENTRY), [], {CONTEXT_TWO});
    assert BAD_ENTRY == listed + [DIRECTIVE_SEPARATOR] + "";
    HeaderOrder(b, listed, "");
    BadEntryDirectives();
    ParseEmptyHeader();
    var ds := [Directive(Path(CONTEXT_TWO), None), Directive(Path(SPLURGE), None)];
    assert SPLURGE != CONTEXT_TWO;
    assert DeclaredLocations(ds, b) == [LocationOf(Declared(CONTEXT_TWO))] by {
      assert ds[1..][1..] == [];
    }
  }
}
