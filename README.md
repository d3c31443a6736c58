# Spring-Context configuration of an OSGi bundle

This project models how the Spring OSGi extender configures a bundle. The
class `ApplicationContextConfiguration` reads three things from a bundle:

- its `Spring-Context` manifest header;
- the XML entries found under `META-INF/spring`;
- which resource paths the bundle can resolve.

From these it answers three questions:

- `isSpringPoweredBundle`: whether the bundle is Spring powered;
- `getConfigurationLocations`: the ordered configuration locations;
- `waitForDependencies`: whether context creation waits for the
  bundle's service dependencies.

The behaviour modelled is the one fixed by `ApplicationContextConfigurationTest`.
The implementation class itself is not part of this model.

The model is made of pure functions over a `Bundle` value. The value holds:

- the header (`Option<string>`);
- the discovered entries (`seq<string>`, in discovery order);
- the resolvable paths (`set<string>`).

The modules are:

- `Strings`: splitting on a separator character, and its inverse `Join`.
- `ManifestHeader`: parsing the header into directives. A directive is a
  path token (`*`, a path, or empty) with an optional
  `wait-for-dependencies` setting. The module also holds a renderer, which
  is the parser's partner in the round-trip lemmas.
- `ContextConfiguration`: the three answers, and the general lemmas about
  them for every bundle.
- `ApplicationContextConfigurationTests`: one lemma per test method. Each
  evaluates the model on that test's inputs.

How the model reads the header:

- A missing or empty header means "no header". The locations are then the
  discovered entries, each prefixed `bundle-url:`.
- Otherwise the header is split on `,` and empty segments are dropped.
  Each remaining segment is split on `;`:
  - `*` contributes the discovered entries, prefixed `bundle-url:`;
  - a path contributes `bundle:` followed by that path, when the bundle
    resolves it, and nothing otherwise.
- A bundle is powered exactly when it has at least one location.
- The bundle waits for dependencies unless the last
  `wait-for-dependencies` clause the header carries after a `;` is
  `:=false`. A later clause overrides an earlier one, within a segment and
  across segments; clause text in the path-token position is a path.

## Model

| member | source | states |
|---|---|---|
| ContextConfiguration.ConfigurationLocations | spring-osgi-extender/src/test/java/org/springframework/osgi/extender/support/ApplicationContextConfigurationTest.java:112-166 | `getConfigurationLocations`. Its contract is given by `LocationsCharacterised` (membership both ways), `HeaderOrder` (header order is location order) and `NoHeader` (without a header, the prefixed entries in discovery order). |
| ContextConfiguration.IsSpringPoweredBundle | spring-osgi-extender/src/test/java/org/springframework/osgi/extender/support/ApplicationContextConfigurationTest.java:35-66 | `isSpringPoweredBundle`: at least one location. Its contract is `PoweredIff`: with a header, some directive yields a location; without one, some entry was discovered. |
| ContextConfiguration.WaitForDependencies | spring-osgi-extender/src/test/java/org/springframework/osgi/extender/support/ApplicationContextConfigurationTest.java:68-110 | `waitForDependencies`. Its contract is `WaitFollowsAttribute`: true when the header carries no setting, and the agreed setting wherever it stands. |
| ContextConfiguration.DirectiveLocations | spring-osgi-extender/src/test/java/org/springframework/osgi/extender/support/ApplicationContextConfigurationTest.java:122-154 | What one directive contributes. Its contract is `DirectiveMember`: `*` yields the prefixed discovered entries, a path its `bundle:` location when resolvable, an empty token nothing. |
| ManifestHeader.ParseHeader | spring-osgi-extender/src/test/java/org/springframework/osgi/extender/support/ApplicationContextConfigurationTest.java:158 | The header parse. Its contract is `ParseRenderHeader` (rendered well-formed directives parse back, in order), `ParseHeaderAppend` (comma order is directive order) and `ParseEmptyHeader`. |
| ManifestHeader.ParseDirective | spring-osgi-extender/src/test/java/org/springframework/osgi/extender/support/ApplicationContextConfigurationTest.java:77-104 | One segment: path token and `wait-for-dependencies` setting. Its contract is `ParseRenderDirective`. |
| ManifestHeader.LastSetting | spring-osgi-extender/src/test/java/org/springframework/osgi/extender/support/ApplicationContextConfigurationTest.java:84-110 | The "later setting overrides" rule, used over the clauses of a segment and over the directives of a header. Its contract is `LastSettingUnset` and `LastSettingAgreed`. |
| ManifestHeader.LastSettingUnset | spring-osgi-extender/src/test/java/org/springframework/osgi/extender/support/ApplicationContextConfigurationTest.java:75-82 | A list without any setting makes none, so the default of true applies. |
| ManifestHeader.LastSettingAgreed | spring-osgi-extender/src/test/java/org/springframework/osgi/extender/support/ApplicationContextConfigurationTest.java:84-110 | A setting v that some element makes and no element contradicts is the result, wherever it stands. |
| ContextConfiguration.NoHeader | spring-osgi-extender/src/test/java/org/springframework/osgi/extender/support/ApplicationContextConfigurationTest.java:35-47 | Without a header the locations are the discovered entries, each prefixed `bundle-url:`, in discovery order. The bundle is powered exactly when an entry was discovered, and it waits for dependencies. |
| ContextConfiguration.DiscoveredLocationsAt | spring-osgi-extender/src/test/java/org/springframework/osgi/extender/support/ApplicationContextConfigurationTest.java:112-120 | The discovered locations have one element per entry, and element i is `bundle-url:` followed by entry i. |
| ContextConfiguration.SingleLiteralPath | spring-osgi-extender/src/test/java/org/springframework/osgi/extender/support/ApplicationContextConfigurationTest.java:49-66 | A header naming one literal path gives exactly `[bundle:path]` when the bundle resolves the path, and no location otherwise. Discovered entries are not added. The bundle is powered exactly when the path resolves, and it waits by default. |
| ContextConfiguration.WildcardAlone | spring-osgi-extender/src/test/java/org/springframework/osgi/extender/support/ApplicationContextConfigurationTest.java:134-154 | A header made of one `*` directive gives the same locations as no header. The bundle is powered exactly when an entry was discovered, and the directive's setting, defaulting to true, is the wait flag. |
| ContextConfiguration.WaitFollowsAttribute | spring-osgi-extender/src/test/java/org/springframework/osgi/extender/support/ApplicationContextConfigurationTest.java:75-110 | With a header: when no directive carries a setting, the bundle waits. When some directive sets v and no directive sets anything else, the wait flag is v, wherever that directive sits. |
| ContextConfiguration.HeaderWaitAgreed | spring-osgi-extender/src/test/java/org/springframework/osgi/extender/support/ApplicationContextConfigurationTest.java:84-110 | Over any directive list, a setting v that some directive makes and none contradicts is the list's setting. |
| ContextConfiguration.HeaderWaitUnset | spring-osgi-extender/src/test/java/org/springframework/osgi/extender/support/ApplicationContextConfigurationTest.java:75-82 | A directive list with no setting has no setting, so the default of true applies. |
| ContextConfiguration.HeaderOrder | spring-osgi-extender/src/test/java/org/springframework/osgi/extender/support/ApplicationContextConfigurationTest.java:156-166 | For the header `h1,h2`, the locations are those of `h1` followed by those of `h2`. |
| ContextConfiguration.LocationsCharacterised | spring-osgi-extender/src/test/java/org/springframework/osgi/extender/support/ApplicationContextConfigurationTest.java:112-166 | A string is a configuration location exactly when it decodes, by its prefix, to a source the bundle contributes. A discovered entry is contributed when there is no header or the header has `*`. A declared path is contributed when the header names it and the bundle resolves it. |
| ContextConfiguration.PoweredIff | spring-osgi-extender/src/test/java/org/springframework/osgi/extender/support/ApplicationContextConfigurationTest.java:35-66 | With a header, the bundle is powered exactly when some directive yields a location: `*` with a discovered entry, or a resolvable path. Without one, it is powered exactly when an entry was discovered. |
| ContextConfiguration.SourceOfLocationOf | spring-osgi-extender/src/test/java/org/springframework/osgi/extender/support/ApplicationContextConfigurationTest.java:118-131 | The `bundle:` and `bundle-url:` prefixes tell a declared location from a discovered one, and the rest of the string is the path or URL. |
| ContextConfiguration.LocationOfSourceOf | spring-osgi-extender/src/test/java/org/springframework/osgi/extender/support/ApplicationContextConfigurationTest.java:118-131 | A string that decodes to a source is that source's location (the inverse direction of the round trip). |
| ContextConfiguration.DeclaredLocationsAppend | spring-osgi-extender/src/test/java/org/springframework/osgi/extender/support/ApplicationContextConfigurationTest.java:95-108 | The locations of a concatenated directive list are the concatenated locations of its parts. |
| ContextConfiguration.DeclaredLocationsMember | spring-osgi-extender/src/test/java/org/springframework/osgi/extender/support/ApplicationContextConfigurationTest.java:156-166 | A location is declared exactly when one of the directives yields it. |
| ContextConfiguration.DeclaredLocationsNonEmpty | spring-osgi-extender/src/test/java/org/springframework/osgi/extender/support/ApplicationContextConfigurationTest.java:156-162 | A directive list yields some location exactly when one of its directives does. |
| ContextConfiguration.DiscoveredMember | spring-osgi-extender/src/test/java/org/springframework/osgi/extender/support/ApplicationContextConfigurationTest.java:112-144 | A string is a discovered location exactly when it decodes to a discovered source whose URL was found. |
| ContextConfiguration.DirectiveMember | spring-osgi-extender/src/test/java/org/springframework/osgi/extender/support/ApplicationContextConfigurationTest.java:122-166 | The locations one directive yields: for `*`, the prefixed discovered entries; for a path, its declared location when resolvable; for an empty token, none. |
| ManifestHeader.ParseRenderHeader | spring-osgi-extender/src/test/java/org/springframework/osgi/extender/support/ApplicationContextConfigurationTest.java:95-104 | Round trip: a header rendered from well-formed directives parses back to exactly those directives, in order. |
| ManifestHeader.ParseRenderDirective | spring-osgi-extender/src/test/java/org/springframework/osgi/extender/support/ApplicationContextConfigurationTest.java:77-104 | Round trip for one segment: the path token and its `wait-for-dependencies` setting are read back. |
| ManifestHeader.ParseSingleDirective | spring-osgi-extender/src/test/java/org/springframework/osgi/extender/support/ApplicationContextConfigurationTest.java:51-87 | A header of one well-formed directive parses to that directive alone. |
| ManifestHeader.ParseHeaderAppend | spring-osgi-extender/src/test/java/org/springframework/osgi/extender/support/ApplicationContextConfigurationTest.java:95-104 | Header order is directive order: `h1,h2` parses to the directives of `h1` followed by those of `h2`. |
| ManifestHeader.ParseEmptyHeader | spring-osgi-extender/src/test/java/org/springframework/osgi/extender/support/ApplicationContextConfigurationTest.java:158 | An empty segment, such as the one after a trailing comma, yields no directive. |
| ManifestHeader.RenderedSegment | spring-osgi-extender/src/test/java/org/springframework/osgi/extender/support/ApplicationContextConfigurationTest.java:95-104 | A well-formed directive renders to a non-empty segment without a comma, so the header split keeps it whole. |
| ManifestHeader.WaitClauseOf | spring-osgi-extender/src/test/java/org/springframework/osgi/extender/support/ApplicationContextConfigurationTest.java:77-104 | The clauses `wait-for-dependencies:=true` and `:=false` set true and false. |
| ManifestHeader.ParseClauseOf | spring-osgi-extender/src/test/java/org/springframework/osgi/extender/support/ApplicationContextConfigurationTest.java:77-104 | A `key:=value` clause whose key holds no colon splits into that key and that value. |
| ManifestHeader.IndexOfAssign | spring-osgi-extender/src/test/java/org/springframework/osgi/extender/support/ApplicationContextConfigurationTest.java:77-104 | Finds the first `:=` of a clause, or reports that there is none. |
| ManifestHeader.ParseDirectives | spring-osgi-extender/src/test/java/org/springframework/osgi/extender/support/ApplicationContextConfigurationTest.java:95-104 | One directive per segment, each the parse of its segment, in segment order. |
| Strings.Split | spring-osgi-extender/src/test/java/org/springframework/osgi/extender/support/ApplicationContextConfigurationTest.java:158 | About the split the header parse uses: the pieces of a split are never empty as a list, and no piece contains the separator. |
| Strings.DropEmpty | spring-osgi-extender/src/test/java/org/springframework/osgi/extender/support/ApplicationContextConfigurationTest.java:158 | About the split the header parse uses: dropping empty segments keeps every non-empty segment and only those. |
| Strings.SplitAround | spring-osgi-extender/src/test/java/org/springframework/osgi/extender/support/ApplicationContextConfigurationTest.java:158 | About the split the header parse uses: a separator between two strings splits exactly there. |
| Strings.JoinSplit | spring-osgi-extender/src/test/java/org/springframework/osgi/extender/support/ApplicationContextConfigurationTest.java:158 | About the split the header parse uses: joining the pieces of a split gives back the header text. |
| Strings.SplitJoin | spring-osgi-extender/src/test/java/org/springframework/osgi/extender/support/ApplicationContextConfigurationTest.java:158 | About the split the header parse uses: splitting joined separator-free pieces gives the pieces back. |
| Strings.SplitWithout | spring-osgi-extender/src/test/java/org/springframework/osgi/extender/support/ApplicationContextConfigurationTest.java:158 | About the split the header parse uses: a string without the separator is one piece. |
| Strings.DropEmptyAppend | spring-osgi-extender/src/test/java/org/springframework/osgi/extender/support/ApplicationContextConfigurationTest.java:158 | About the split the header parse uses: dropping empty segments distributes over concatenation. |
| Strings.DropEmptyKeepsAll | spring-osgi-extender/src/test/java/org/springframework/osgi/extender/support/ApplicationContextConfigurationTest.java:158 | About the split the header parse uses: segments that are all non-empty are kept as they are. |
| ApplicationContextConfigurationTests.BundleWithNoHeaderAndNoMetaInfSpringResourcesIsNotSpringPowered | spring-osgi-extender/src/test/java/org/springframework/osgi/extender/support/ApplicationContextConfigurationTest.java:35-40 | No header and no entries: not powered. |
| ApplicationContextConfigurationTests.BundleWithSpringResourcesAndNoHeaderIsSpringPowered | spring-osgi-extender/src/test/java/org/springframework/osgi/extender/support/ApplicationContextConfigurationTest.java:42-47 | No header and two entries: powered. |
| ApplicationContextConfigurationTests.BundleWithHeaderAndNoMetaInfResourcesIsSpringPowered | spring-osgi-extender/src/test/java/org/springframework/osgi/extender/support/ApplicationContextConfigurationTest.java:49-57 | A resolvable header path with no entries: powered. |
| ApplicationContextConfigurationTests.BundleWithHeaderWithBadEntriesAndNoMetaInfResourcesIsNotSpringPowered | spring-osgi-extender/src/test/java/org/springframework/osgi/extender/support/ApplicationContextConfigurationTest.java:59-66 | An unresolvable header path with no entries: not powered. |
| ApplicationContextConfigurationTests.BundleWithNoHeaderShouldWaitForDependencies | spring-osgi-extender/src/test/java/org/springframework/osgi/extender/support/ApplicationContextConfigurationTest.java:68-73 | No header: waits for dependencies. |
| ApplicationContextConfigurationTests.BundleWithWaitTrueShouldWaitForDependencies | spring-osgi-extender/src/test/java/org/springframework/osgi/extender/support/ApplicationContextConfigurationTest.java:75-82 | `*;wait-for-dependencies:=true`: waits. |
| ApplicationContextConfigurationTests.WaitFalseAlone | spring-osgi-extender/src/test/java/org/springframework/osgi/extender/support/ApplicationContextConfigurationTest.java:85-91 | `*;wait-for-dependencies:=false`: does not wait. |
| ApplicationContextConfigurationTests.WaitFalseAtEnd | spring-osgi-extender/src/test/java/org/springframework/osgi/extender/support/ApplicationContextConfigurationTest.java:93-100 | The setting `false` on the last of two directives: does not wait. |
| ApplicationContextConfigurationTests.WaitFalseAtStart | spring-osgi-extender/src/test/java/org/springframework/osgi/extender/support/ApplicationContextConfigurationTest.java:102-109 | The setting `false` on the first of two directives: does not wait. |
| ApplicationContextConfigurationTests.BundleWithWaitFalseShouldNotWaitForDependencies | spring-osgi-extender/src/test/java/org/springframework/osgi/extender/support/ApplicationContextConfigurationTest.java:84-110 | All three placements of `wait-for-dependencies:=false`: does not wait. |
| ApplicationContextConfigurationTests.ConfigLocationsInMetaInfNoHeader | spring-osgi-extender/src/test/java/org/springframework/osgi/extender/support/ApplicationContextConfigurationTest.java:112-120 | No header: the two entries, each prefixed `bundle-url:`, in order. |
| ApplicationContextConfigurationTests.ConfigLocationsInMetaInfWithHeader | spring-osgi-extender/src/test/java/org/springframework/osgi/extender/support/ApplicationContextConfigurationTest.java:122-132 | A header path: only `bundle:META-INF/spring/context.xml`, whatever was discovered. |
| ApplicationContextConfigurationTests.ConfigLocationsInMetaInfWithWildcardHeader | spring-osgi-extender/src/test/java/org/springframework/osgi/extender/support/ApplicationContextConfigurationTest.java:134-144 | `*` with a setting: the two entries, each prefixed `bundle-url:`, in order. |
| ApplicationContextConfigurationTests.HeaderWithWildcardEntryAndNoMetaInfResources | spring-osgi-extender/src/test/java/org/springframework/osgi/extender/support/ApplicationContextConfigurationTest.java:147-154 | `*` with no entries: not powered. |
| ApplicationContextConfigurationTests.BadEntryDirectives | spring-osgi-extender/src/test/java/org/springframework/osgi/extender/support/ApplicationContextConfigurationTest.java:158 | The two paths before the trailing comma parse to two path directives, in order. |
| ApplicationContextConfigurationTests.HeaderWithBadEntry | spring-osgi-extender/src/test/java/org/springframework/osgi/extender/support/ApplicationContextConfigurationTest.java:156-166 | Of `context-two.xml,splurge/context.xml,`, only the resolvable first path contributes: powered, with exactly `bundle:META-INF/spring/context-two.xml`. |

## Left out

- The OSGi `Bundle` API (`getHeaders`, `findEntries`, `getEntry`) is not modelled. A bundle is a value made of:
  - the header;
  - the discovered entries, where a null `findEntries` answer is the empty sequence;
  - the set of paths `getEntry` resolves.
- The one-shot "answer on the next call" behaviour of the test's mock bundle is not modelled. Resolution is a fixed set.
- URL objects are not modelled. Entries and locations are plain strings.
- Spring application-context construction and the JUnit harness are not modelled.
- The implementation class `ApplicationContextConfiguration` is not part of this model. The rules below are assumptions wherever the tests do not decide:
  - an empty header value counts as no header;
  - an empty path token contributes nothing;
  - the key is split from the value at the first `:=`.
- Only the exact values `true` and `false` of `wait-for-dependencies` are read. Any other value, and any other attribute, is ignored. Nothing is proved about these inputs.
- Conflicting duplicate settings: the model takes the last one, and nothing is proved about that choice.
- Locations are not de-duplicated.
- Whitespace around tokens and letter case are not handled. The header is used as given.
- The three getters are separate functions. They are not bundled into one record. `IsSpringPoweredBundle` is defined as "at least one location".
