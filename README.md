# Bilingual site helpers: translations, language routing and CMS translation groups

This project models the language layer of a bilingual (English/French) web site:

- `apps/web/src/lib/translations.ts`: the nested translation table, the
  dotted-key lookup `t` with its English fallback, `hasTranslation`,
  `getNamespaceTranslations`, and the small locale helpers.
- `apps/web/src/lib/i18n.ts`: Accept-Language detection, reading the language
  from a URL path, and `getLocalizedPath` with its French/English route tables.
- `apps/web/src/lib/sanityTranslations.ts`: choosing a document by language,
  grouping CMS documents that are translations of each other, the available
  languages of a group, the text of the GROQ query, and building and parsing
  language-prefixed routes.

Layout:

- `wrappers.dfy`: `Option`.
- `strings.dfy` (module `Strings`): the JavaScript string built-ins the code
  relies on. These are `split`/`join`, `filter(Boolean)`, `trim`,
  `toLowerCase`, `startsWith`, `indexOf` and the default string order used by
  `sort`.
- `i18n.dfy` (module `I18n`): models `i18n.ts`.
- `translations.dfy` (module `Translations`): models `translations.ts`. The
  lookups `t`, `hasTranslation` and `getNamespaceTranslations` loop over keys
  in the source. Here they are methods with loops, each proved equal to a
  specification function. The lemmas speak about those functions.
- `site_table.dfy` (module `SiteTable`): the site's own table,
  `translations.ts:23-214`, and the proof that it is well formed. Each
  namespace is written as a map from keys to English/French text pairs, and
  `Leaves` turns it into leaf nodes.
- `table_examples.dfy` (module `TableExamples`): the behaviour
  `translations.test.ts` expects. Each expected lookup is proved for any
  well-formed table whose namespace holds the entry the test reads. Small
  lemmas show that the site's table holds those entries, and
  `DefaultTableQualifies` shows that it meets the other requirements.
- `sanity_translations.dfy` (module `SanityTranslations`): models
  `sanityTranslations.ts`. `groupDocumentsByTranslation` is a method with its
  two nested loops, proved equal to a recursive function. The grouping
  properties are lemmas about that function.
- `sanity_examples.dfy` (module `SanityExamples`): the behaviour
  `sanityTranslations.test.ts` expects.

A `SupportedLanguage` is `Lang = En | Fr`. A CMS document's `language` is any
string, because the code and its tests also handle other codes (`'de'`,
`'es'`). The translation table is a tree of `Node`s, either `Str(text)` or
`Obj(children)`. The functions take the table as a parameter. `WellFormed`
says that wherever an `en` or `fr` key occurs, its value is a string. The
source's `TranslationDictionary` type allows more (any key, `en` and `fr`
included, may hold a nested dictionary); the table of translations.ts has the
well-formed shape, and the lookups are modelled for well-formed tables only
(see `Translations.Translate` under "## Left out").

## Model

Rows whose third column starts with "proof helper" unfold a definition for
later proofs. Lemmas without a row, such as `LastTwoFields`, `AboutPathParts`,
`TitleAndSlug` and `IdsDiffer`, only settle equalities between string literals.
Neither kind states anything about the source.

| member | source | states |
|---|---|---|
| Strings.Split | apps/web/src/lib/translations.ts:224 | `split` yields at least one piece, no piece holds the separator, and joining the pieces with the separator gives back the input |
| Strings.SplitJoin | apps/web/src/lib/translations.ts:224 | splitting a join of separator-free pieces gives back the pieces |
| Strings.SplitWithoutSeparator | apps/web/src/lib/translations.ts:224 | a string without the separator splits into itself alone |
| Strings.SplitAfterPiece | apps/web/src/lib/translations.ts:224 | splitting `w + sep + t` yields `w` followed by the pieces of `t` |
| Strings.JoinAppend | apps/web/src/lib/sanityTranslations.ts:128 | joining two non-empty lists is joining each and putting the separator between |
| Strings.NonEmpty | apps/web/src/lib/i18n.ts:49 | `filter(Boolean)` keeps exactly the non-empty pieces, in order |
| Strings.NonEmptyAppend | apps/web/src/lib/i18n.ts:49 | filtering distributes over concatenation |
| Strings.NonEmptyOfNonEmpty | apps/web/src/lib/i18n.ts:49 | filtering a list without empty strings changes nothing |
| Strings.Lower | apps/web/src/lib/i18n.ts:23 | `toLowerCase` keeps the length and lower-cases every character |
| Strings.TrimStart | apps/web/src/lib/i18n.ts:21 | the result is a suffix of the input, everything removed is white space, and it does not start with white space |
| Strings.TrimEnd | apps/web/src/lib/i18n.ts:21 | the result is a prefix of the input, everything removed is white space, and it does not end with white space |
| Strings.Trim | apps/web/src/lib/i18n.ts:21 | the result is a slice of the input with only white space cut from either side, and it neither starts nor ends with white space |
| Strings.IndexOf | apps/web/src/lib/i18n.ts:21 | the position found is an occurrence with none before it; `None` means there is no occurrence |
| Strings.FirstOccurrence | apps/web/src/lib/i18n.ts:21 | an occurrence with none before it is the one `IndexOf` finds |
| Strings.Before | apps/web/src/lib/i18n.ts:21 | the part before the first `;q=`: the entry cut at the first occurrence, and the whole entry when it holds no `;q=` |
| Strings.After | apps/web/src/lib/i18n.ts:21 | present exactly when the entry holds `;q=`, and then the rest of the entry after its first occurrence |
| Strings.LexLessIrreflexive | apps/web/src/lib/sanityTranslations.ts:101 | the default `sort` order never puts a string before itself |
| Strings.LexLessTransitive | apps/web/src/lib/sanityTranslations.ts:101 | the default `sort` order is transitive |
| Strings.LexLessTotal | apps/web/src/lib/sanityTranslations.ts:101 | any two different strings are ordered one way or the other |
| I18n.Code | apps/web/src/lib/i18n.ts:5 | a language code is two characters, with no `/` and no `.` |
| I18n.FromCode | apps/web/src/lib/i18n.ts:52-53 | exactly `en` and `fr` are language codes, and the code of the result is the input |
| I18n.ParsePref | apps/web/src/lib/i18n.ts:20-26 | an entry without `;q=` has quality 1.0 and its trimmed, lower-cased text as locale; a locale never holds an upper-case letter |
| I18n.ParsePrefWithQuality | apps/web/src/lib/i18n.ts:21-24 | an entry `loc;q=q`, with `;q=` in neither part, has locale `loc` lower-cased and quality `parseQuality(q)`, or 1.0 when `q` is empty |
| I18n.SpacedCodeUnrecognised | apps/web/src/lib/i18n.ts:21-37 | in `fr ;q=0.5` and the like the space stays in the locale, so the entry is not recognised |
| I18n.ParseHeader | apps/web/src/lib/i18n.ts:18-26 | one parsed entry per comma-separated piece, in header order |
| I18n.InsertByQuality | apps/web/src/lib/i18n.ts:27 | one insertion step of the descending sort keeps the order and the multiset of entries, plus the new one |
| I18n.SortByQuality | apps/web/src/lib/i18n.ts:27 | the sorted entries are in non-increasing quality and are a permutation of the input |
| I18n.IsFrenchLocale | apps/web/src/lib/i18n.ts:31 | the French test: `fr`, `fr-ca` or `fr-fr` exactly |
| I18n.IsEnglishLocale | apps/web/src/lib/i18n.ts:34 | the English test: `en` or any locale starting with `en-` |
| I18n.LocaleTestsDisjoint | apps/web/src/lib/i18n.ts:31-34 | no locale passes both tests, so which is tried first does not matter |
| I18n.FirstRecognised | apps/web/src/lib/i18n.ts:30-37 | the search returns the first French or English entry of the list (none before it is recognised), and `None` only when the list holds none |
| I18n.DetectLanguageFromHeader | apps/web/src/lib/i18n.ts:12-41 | the answer is French only for a header with some entry naming a French locale; DetectChoosesBest gives the exact choice |
| I18n.BestIsUnique | apps/web/src/lib/i18n.ts:27-37 | at most one entry is the best: recognised, of highest quality, and earliest among equals |
| I18n.BestOfIsBest | apps/web/src/lib/i18n.ts:27-37 | the front-to-back choice is empty exactly when nothing is recognised, and is otherwise the best entry |
| I18n.FirstRecognisedBelowHead | apps/web/src/lib/i18n.ts:30-37 | in a sorted list the entry found has no higher quality than the head |
| I18n.FirstRecognisedOfInsert | apps/web/src/lib/i18n.ts:27-37 | inserting an entry into a sorted list changes the search result as the front-to-back choice predicts |
| I18n.FirstRecognisedOfSort | apps/web/src/lib/i18n.ts:27-37 | searching the sorted entries finds the best entry of the unsorted ones |
| I18n.DetectChoosesBest | apps/web/src/lib/i18n.ts:12-41 | for a non-empty header the detector answers French exactly when the best recognised entry is a French locale |
| I18n.OnlyFrenchRecognised | apps/web/src/lib/i18n.ts:29-37 | when the only recognised entries are French, the answer is French whatever their qualities |
| I18n.MissingHeaderIsEnglish | apps/web/src/lib/i18n.ts:13-15 | a missing or empty header gives English |
| I18n.PathSegments | apps/web/src/lib/i18n.ts:49 | path segments are non-empty and hold no `/` |
| I18n.FirstPiece | apps/web/src/lib/i18n.ts:49-52 | the first piece of a split equals a separator-free word exactly when the string starts with that word followed by the separator or the end |
| I18n.SegmentsAfterSlash | apps/web/src/lib/i18n.ts:49 | a leading slash does not change the segments |
| I18n.LanguageFromPath | apps/web/src/lib/i18n.ts:48-57 | a language is found exactly when the first non-empty segment is its code; none when there is no segment or the first is neither `en` nor `fr` |
| I18n.CurrentLanguage | apps/web/src/lib/i18n.ts:64-66 | the path's language when it has one, and English otherwise |
| I18n.IsLanguagePath | apps/web/src/lib/i18n.ts:108-110 | a language path has a first segment that is a language code, and any other path is English |
| I18n.LanguageFromPathLeads | apps/web/src/lib/i18n.ts:48-57 | the path names language `l` exactly when, after leading slashes, it starts with `l`'s code followed by `/` or the end |
| I18n.IsLanguagePathLeads | apps/web/src/lib/i18n.ts:108-110 | a path is a language path exactly when it leads with `en` or `fr` |
| I18n.CurrentLanguageLeads | apps/web/src/lib/i18n.ts:64-66 | the current language is French exactly when the path leads with `fr`, and English otherwise |
| I18n.StripLanguagePrefix | apps/web/src/lib/i18n.ts:76 | a leading `/en` or `/fr` is removed textually, anything else is kept, and an empty result becomes `/`, so the result is never empty |
| I18n.RouteOr | apps/web/src/lib/i18n.ts:87-98 | the lookup gives the table's route when the path is a key, and the path itself when it is not |
| I18n.UnmappedPassesThrough | apps/web/src/lib/i18n.ts:76-99 | a cleaned path the target's table does not map comes back unchanged under the target's prefix |
| I18n.UnprefixedPassesThrough | apps/web/src/lib/i18n.ts:76-99 | a non-empty path without `/en` or `/fr` in front that the table does not map becomes the prefix followed by the path |
| I18n.PassThroughExamples | apps/web/src/lib/i18n.ts:76-99 | `/` becomes `/fr/`, `/events` becomes `/fr/events` and `/faq` becomes `/en/faq` |
| I18n.RoutesFor | apps/web/src/lib/i18n.ts:80-96 | every route of the table chosen for a language is non-empty and starts with `/`, so a hit is never replaced by the path |
| I18n.GetLocalizedPath | apps/web/src/lib/i18n.ts:74-101 | the result starts with `/` and the target code, and is longer than that prefix |
| I18n.RouteTablesInverse | apps/web/src/lib/i18n.ts:80-99 | the French and English route tables are inverse bijections with disjoint keys |
| I18n.StripAddedPrefix | apps/web/src/lib/i18n.ts:76 | stripping a just-added language prefix gives back the non-empty rest |
| I18n.RouteOrTwice | apps/web/src/lib/i18n.ts:87-98 | mapping a route through one table and then another is the same as mapping through the second alone |
| I18n.LastLocalizationWins | apps/web/src/lib/i18n.ts:74-101 | localizing an already localized path depends only on the last target language |
| I18n.LocalizedPathIdempotent | apps/web/src/lib/i18n.ts:74-101 | localizing twice to the same language is the same as localizing once |
| I18n.ConsByQuality | apps/web/src/lib/i18n.ts:27 | an entry of at least the head's quality can go in front of a list sorted by descending quality |
| I18n.StripUnprefixed | apps/web/src/lib/i18n.ts:76 | a path of three or more characters whose second is neither `e` nor `f` has no prefix to strip |
| I18n.LocalizedPathOf | apps/web/src/lib/i18n.ts:76-99 | proof helper, unfolding the definition: the localized path is `/`, the target code, and the stripped path sent through the target's route table |
| I18n.FrenchRouteShapes | apps/web/src/lib/i18n.ts:80-96 | no English route, which is a key of the French table, starts with `/e` or `/f`, and none is a key of the English table |
| I18n.EnglishPathOf | apps/web/src/lib/i18n.ts:76-99 | an unprefixed path that the English table does not map becomes `/en` plus the path |
| I18n.MappedRouteRoundTrip | apps/web/src/lib/i18n.ts:80-99 | a mapped English route, sent to French and back, becomes `/en` plus the route |
| I18n.MappedToFrench | apps/web/src/lib/i18n.ts:76-88 | an unprefixed route with a French name becomes `/fr` plus that name |
| I18n.FrenchRouteExamples | apps/web/src/lib/i18n.ts:80-88 | `/blog` becomes `/fr/blogue` and `/about` becomes `/fr/a-propos` |
| I18n.BlogRouteToEnglish | apps/web/src/lib/i18n.ts:76-99 | `/fr/blogue` becomes `/en/blog` |
| I18n.ContactExample | apps/web/src/lib/i18n.ts:80-88 | an unmapped `/contact` becomes `/fr/contact` |
| I18n.TextualStripExamples | apps/web/src/lib/i18n.ts:76 | the prefix is removed as text: `/frontpage` becomes `/enontpage`, and `/fr` becomes `/en/` |
| Translations.GetFallbackLanguage | apps/web/src/lib/translations.ts:8 | the fallback language is English |
| Translations.Walk | apps/web/src/lib/translations.ts:228-238 | following keys through a well-formed table reaches a well-formed node |
| Translations.Entry | apps/web/src/lib/translations.ts:240-248 | the text under the requested code is returned when present; otherwise English is used, and only for French |
| Translations.OrKey | apps/web/src/lib/translations.ts:236 | `fallback \|\| key` is the fallback unless that is empty, in which case it is the key |
| Translations.TranslationOf | apps/web/src/lib/translations.ts:223-251 | the reference for `t`: walk the dotted key, then the entry for the language, English for French, or `fallback \|\| key`; FrenchFallsBackToEnglish and MissingPathGivesFallbackOrKey state its behaviour |
| Translations.Translate | apps/web/src/lib/translations.ts:223-251 | the key-walking loop returns the translation the specification function defines |
| Translations.Translated | apps/web/src/lib/translations.ts:289-304 | the reference for `hasTranslation`: the key reaches an object whose entry for the language is a string; HasTranslationIgnoresEnglish relates it to `t` |
| Translations.HasTranslation | apps/web/src/lib/translations.ts:289-304 | the loop answers whether the key leads to a node holding a string under the language's code |
| Translations.ChildEntries | apps/web/src/lib/translations.ts:269-276 | an object child is listed exactly when it has the language's key, or the English key when the language is not English; it then holds that key's text |
| Translations.NamespaceTranslationsOf | apps/web/src/lib/translations.ts:259-281 | the reference for `getNamespaceTranslations`; NamespaceKeys and NamespaceAgreesWithTranslate state its keys and values |
| Translations.GetNamespaceTranslations | apps/web/src/lib/translations.ts:259-281 | the loop over a namespace's entries builds the map the specification function defines |
| Translations.GetLocaleString | apps/web/src/lib/translations.ts:361-363 | the locale is the language code followed by `-CA` |
| Translations.GetTextDirection | apps/web/src/lib/translations.ts:343-346 | both languages read left to right |
| Translations.FoundEntryIsReturned | apps/web/src/lib/translations.ts:241-243 | when the key reaches a node with the language's code, its text is the translation |
| Translations.FrenchFallsBackToEnglish | apps/web/src/lib/translations.ts:233-234 | a French lookup without a French entry gives exactly the English lookup |
| Translations.MissingPathGivesFallbackOrKey | apps/web/src/lib/translations.ts:231-236 | a key that does not lead anywhere gives the fallback, or the key when there is none |
| Translations.EnglishNeverFallsBack | apps/web/src/lib/translations.ts:236-250 | an English lookup gives the English entry, or else the fallback or the key |
| Translations.HasTranslationIgnoresEnglish | apps/web/src/lib/translations.ts:246-248 | `hasTranslation` says no for French when only English exists, while `t` still answers with the English text |
| Translations.SplitDotted | apps/web/src/lib/translations.ts:224 | a two-part dotted key splits into its two parts |
| Translations.NamespaceAgreesWithTranslate | apps/web/src/lib/translations.ts:259-281 | a namespace entry is the text `t` gives for `namespace.key`, and for a key the map leaves out `t` gives the fallback or the key |
| Translations.NamespaceKeys | apps/web/src/lib/translations.ts:260-263 | a missing or non-object namespace gives the empty map; otherwise the map's keys are keys of the namespace |
| SiteTable.Leaf | apps/web/src/lib/translations.ts:25-28 | a leaf with an English and a French text is well formed |
| SiteTable.Leaves | apps/web/src/lib/translations.ts:24-45 | proof helper, restating its comprehension: a namespace written as text pairs has the pairs' keys, and each key holds the leaf of its pair |
| SiteTable.LeavesWellFormed | apps/web/src/lib/translations.ts:24-45 | a namespace of text pairs without `en`/`fr` keys is well formed |
| SiteTable.UpdateWellFormed | apps/web/src/lib/translations.ts:126-173 | adding a well-formed child under a key other than `en`/`fr` keeps an object well formed |
| SiteTable.NamespacesHold | apps/web/src/lib/translations.ts:23-214 | the table holds each of its six namespaces under its name |
| SiteTable.ObjWellFormed | apps/web/src/lib/translations.ts:15-17 | an object without `en`/`fr` keys whose children are well formed is well formed |
| SiteTable.NavWellFormed | apps/web/src/lib/translations.ts:24-45 | the `nav` namespace is well formed |
| SiteTable.FooterWellFormed | apps/web/src/lib/translations.ts:46-83 | the `footer` namespace is well formed |
| SiteTable.CommonWellFormed | apps/web/src/lib/translations.ts:84-125 | the `common` namespace is well formed |
| SiteTable.PaginationWellFormed | apps/web/src/lib/translations.ts:159-172 | the nested `blog.pagination` object is well formed |
| SiteTable.BlogLeavesWellFormed | apps/web/src/lib/translations.ts:126-158 | the leaves of `blog` are well formed |
| SiteTable.BlogWellFormed | apps/web/src/lib/translations.ts:126-173 | the `blog` namespace, with its nested object, is well formed |
| SiteTable.VolunteerWellFormed | apps/web/src/lib/translations.ts:174-207 | the `volunteer` namespace is well formed |
| SiteTable.MetaWellFormed | apps/web/src/lib/translations.ts:208-213 | the `meta` namespace is well formed |
| SiteTable.NamespacesWellFormed | apps/web/src/lib/translations.ts:23-214 | a table of six well-formed namespaces is well formed |
| SiteTable.DefaultTableWellFormed | apps/web/src/lib/translations.ts:23-214 | the site's table is well formed |
| TableExamples.WalkTwo | apps/web/src/lib/translations.ts:228-238 | two present keys walk two levels down |
| TableExamples.WalkThree | apps/web/src/lib/translations.ts:228-238 | three present keys walk three levels down |
| TableExamples.WalkTwoMissing | apps/web/src/lib/translations.ts:229-231 | a missing first key stops the walk |
| TableExamples.WalkTwoMissingChild | apps/web/src/lib/translations.ts:229-231 | a missing second key stops the walk |
| TableExamples.LeafTranslation | apps/web/src/lib/translations.ts:241-243 | a key reaching a leaf gives its English and French texts, and both count as translated |
| TableExamples.DottedKey | apps/web/src/lib/translations.ts:224 | two dot-free parts joined by a dot split back into those parts |
| TableExamples.DottedKey3 | apps/web/src/lib/translations.ts:224 | three dot-free parts joined by dots split back into those parts |
| TableExamples.LeafOf | apps/web/src/lib/translations.ts:24-45 | an entry of a namespace's text pairs is the matching leaf of the namespace |
| TableExamples.NavHomeLeaf | apps/web/src/lib/translations.ts:25-28 | the site's `nav.home` is the leaf `Home`/`Accueil` |
| TableExamples.FooterContactLeaf | apps/web/src/lib/translations.ts:51-54 | the site's `footer.contact` is the leaf `Contact Us`/`Contactez-nous` |
| TableExamples.CommonLoadingLeaf | apps/web/src/lib/translations.ts:93-96 | the site's `common.loading` is the leaf `Loading...`/`Chargement...` |
| TableExamples.BlogNextLeaf | apps/web/src/lib/translations.ts:159-168 | the site's `blog.pagination` is the pagination object, and its `next` is the leaf `Next`/`Suivant` |
| TableExamples.NavLacksNonexistent | apps/web/src/lib/translations.ts:24-45 | the site's `nav` has no `nonexistent` entry |
| TableExamples.DefaultTableQualifies | apps/web/src/lib/translations.ts:23-214 | the site's table is a well-formed object of exactly the six namespaces, holding `nav`, `footer`, `common` and `blog` |
| TableExamples.NamespaceLeafExample | apps/web/src/lib/translations.ts:223-251 | in any well-formed table, a two-part key naming a leaf of a namespace reads its English and French texts, and both count as translated |
| TableExamples.NavHomeExample | apps/web/src/lib/translations.test.ts:10-20 | in any well-formed table whose `nav` holds the site's `home` leaf, `nav.home` is `Home` in English and `Accueil` in French, and both count as translated |
| TableExamples.FooterContactExample | apps/web/src/lib/translations.test.ts:10-20 | with the site's `footer.contact` leaf, the key reads `Contact Us` and `Contactez-nous` |
| TableExamples.CommonLoadingExample | apps/web/src/lib/translations.test.ts:10-20 | with the site's `common.loading` leaf, the key reads `Loading...` and `Chargement...` |
| TableExamples.BlogNextKey | apps/web/src/lib/translations.ts:224 | `blog.pagination.next` splits into its three parts |
| TableExamples.NestedLeafExample | apps/web/src/lib/translations.ts:223-251 | a three-part key reaching a leaf inside a namespace's object reads the leaf's texts |
| TableExamples.NestedKeyExample | apps/web/src/lib/translations.test.ts:22-25 | with the site's `blog.pagination.next` leaf, the key is `Next` and `Suivant` |
| TableExamples.MissingNamespaceExample | apps/web/src/lib/translations.ts:229-236 | a two-part key whose namespace is absent gives the key itself, or the fallback when given, and is not translated |
| TableExamples.NonexistentIsNoNamespace | apps/web/src/lib/translations.ts:23-214 | `nonexistent` is not a namespace of a table with the six namespaces |
| TableExamples.UnknownKeyExample | apps/web/src/lib/translations.test.ts:27-37 | in a table of the six namespaces, `nonexistent.key` gives the key itself, or the fallback when one is given, and is not translated |
| TableExamples.MissingChildExample | apps/web/src/lib/translations.ts:229-236 | a two-part key whose namespace lacks the child gives the key itself and is not translated |
| TableExamples.NavNonexistentKey | apps/web/src/lib/translations.ts:224 | `nav.nonexistent` splits into its two parts |
| TableExamples.UnknownChildExample | apps/web/src/lib/translations.test.ts:76-79 | when `nav` lacks `nonexistent`, `nav.nonexistent` gives the key itself and has no translation |
| TableExamples.LeafTexts | apps/web/src/lib/translations.ts:268-278 | the texts of a namespace of leaves have the namespace's keys |
| TableExamples.NamespaceOfLeaves | apps/web/src/lib/translations.ts:268-278 | a namespace made of leaves maps each key to its text in the language |
| TableExamples.NavLeaves | apps/web/src/lib/translations.ts:24-45 | every `nav` entry is a leaf |
| TableExamples.NavEnglishTexts | apps/web/src/lib/translations.ts:24-45 | the English texts of `nav` are the five expected strings |
| TableExamples.NavFrenchTexts | apps/web/src/lib/translations.ts:24-45 | the French texts of `nav` are the five expected strings |
| TableExamples.UnknownNamespaceExample | apps/web/src/lib/translations.test.ts:63-66 | an unknown namespace gives the empty map |
| TableExamples.NavNamespaceExample | apps/web/src/lib/translations.test.ts:41-50 | the English `nav` namespace is the five expected texts |
| TableExamples.NavNamespaceFrenchExample | apps/web/src/lib/translations.test.ts:52-61 | the French `nav` namespace is the five expected texts |
| TableExamples.SiteLookupExamples | apps/web/src/lib/translations.test.ts:10-25 | on the site's table: `nav.home`, `footer.contact`, `common.loading` and `blog.pagination.next` read their English and French texts, and `hasTranslation` is true where the tests expect |
| TableExamples.SiteMissExamples | apps/web/src/lib/translations.test.ts:27-79 | on the site's table: `nonexistent.key` gives the key or the fallback, `hasTranslation` is false for it and for `nav.nonexistent`, and the `nonexistent` namespace is empty |
| TableExamples.SiteNavListings | apps/web/src/lib/translations.test.ts:41-61 | on the site's table: the English and French `nav` listings are the five expected texts |
| SanityTranslations.FindLanguage | apps/web/src/lib/sanityTranslations.ts:35 | `find` returns the first document with the language, and `None` only when there is none |
| SanityTranslations.GetDocumentByLanguage | apps/web/src/lib/sanityTranslations.ts:26-49 | the result is empty exactly for an empty list, and is otherwise a member of the list |
| SanityTranslations.PreferredDocumentChosen | apps/web/src/lib/sanityTranslations.ts:34-48 | the document chosen is the preferred one: the first in the target language, else the first in English, else the first of all |
| SanityTranslations.PreferredIsUnique | apps/web/src/lib/sanityTranslations.ts:34-48 | at most one document is the preferred one |
| SanityTranslations.Linked | apps/web/src/lib/sanityTranslations.ts:77-81 | the link test: either document names the other, or both name the same non-empty id |
| SanityTranslations.LinkedSymmetric | apps/web/src/lib/sanityTranslations.ts:77-81 | the link test gives the same answer with the two documents swapped |
| SanityTranslations.Collect | apps/web/src/lib/sanityTranslations.ts:71-85 | the reference for the inner loop; CollectFacts states what it adds and marks |
| SanityTranslations.GroupsFrom | apps/web/src/lib/sanityTranslations.ts:62-88 | the reference for the outer loop from position `i`; GroupsFromStep gives one step |
| SanityTranslations.Grouping | apps/web/src/lib/sanityTranslations.ts:56-91 | the reference for `groupDocumentsByTranslation`; GroupingIsTranslationGrouping and the lemmas below state its properties |
| SanityTranslations.Flatten | apps/web/src/lib/sanityTranslations.ts:56-91 | a document is in the flattened groups exactly when some group holds it |
| SanityTranslations.CollectFacts | apps/web/src/lib/sanityTranslations.ts:71-85 | the inner loop adds exactly the unprocessed documents linked to the seed, and marks them processed |
| SanityTranslations.GroupDocumentsByTranslation | apps/web/src/lib/sanityTranslations.ts:56-91 | the two loops produce the specified grouping, and that grouping is a translation grouping of the input |
| SanityTranslations.GroupingIsTranslationGrouping | apps/web/src/lib/sanityTranslations.ts:56-91 | groups are non-empty, hold input documents linked to their first member, cover every id once, and each holds every unprocessed linked document |
| SanityTranslations.MemberById | apps/web/src/lib/sanityTranslations.ts:63-68 | with distinct ids, a document whose id is in a group is itself in that group |
| SanityTranslations.IdInOneGroup | apps/web/src/lib/sanityTranslations.ts:63-68 | an id occurs in only one group |
| SanityTranslations.SomeGroupHolds | apps/web/src/lib/sanityTranslations.ts:62-88 | with distinct ids, every document lands in some group |
| SanityTranslations.GroupsAreDisjoint | apps/web/src/lib/sanityTranslations.ts:63-74 | no document is in two groups |
| SanityTranslations.PartnerJoinsGroup | apps/web/src/lib/sanityTranslations.ts:77-83 | the partner of a mutual reference joins the group of the first of the pair, unless it was grouped earlier |
| SanityTranslations.MutualReferencesShareGroup | apps/web/src/lib/sanityTranslations.ts:77-83 | with distinct, non-empty ids, two documents that reference each other share a group |
| SanityTranslations.UnlinkedDocumentAlone | apps/web/src/lib/sanityTranslations.ts:67-87 | with distinct ids, a document that references nothing and that nothing references forms a group of its own (a second document with an id already taken is skipped instead) |
| SanityTranslations.EveryDocumentOnce | apps/web/src/lib/sanityTranslations.ts:56-91 | with distinct ids, the groups are a permutation of the input |
| SanityTranslations.SeedsAtCons | apps/web/src/lib/sanityTranslations.ts:62-67 | a group started by document `i` can go in front of groups started at later positions |
| SanityTranslations.SeedPositions | apps/web/src/lib/sanityTranslations.ts:62-67 | each group starts with an input document, at strictly increasing input positions |
| SanityTranslations.SeedsInInputOrder | apps/web/src/lib/sanityTranslations.ts:62-67 | groups come in the input order of their first members |
| SanityTranslations.DuplicateIdKeptOnce | apps/web/src/lib/sanityTranslations.ts:63-74 | of documents sharing an id, at most one is kept in the output |
| SanityTranslations.DistinctMultiset | apps/web/src/lib/sanityTranslations.ts:12-13 | documents with distinct ids occur once each |
| SanityTranslations.LanguagesOf | apps/web/src/lib/sanityTranslations.ts:101 | `map(doc => doc.language)` keeps length and order |
| SanityTranslations.Dedupe | apps/web/src/lib/sanityTranslations.ts:101 | `new Set` keeps the same elements without duplicates |
| SanityTranslations.InsertSorted | apps/web/src/lib/sanityTranslations.ts:101 | one insertion step of `sort` adds exactly the new element |
| SanityTranslations.SortStrings | apps/web/src/lib/sanityTranslations.ts:101 | `sort` returns a permutation of its input |
| SanityTranslations.InsertSortedAscending | apps/web/src/lib/sanityTranslations.ts:101 | insertion keeps a list in ascending order |
| SanityTranslations.SortStringsAscending | apps/web/src/lib/sanityTranslations.ts:101 | `sort` returns an ascending list |
| SanityTranslations.PermutationNoDup | apps/web/src/lib/sanityTranslations.ts:101 | permuting a duplicate-free list keeps it duplicate-free |
| SanityTranslations.NoDupCount | apps/web/src/lib/sanityTranslations.ts:101 | in a duplicate-free list every element occurs at most once |
| SanityTranslations.SortedMembers | apps/web/src/lib/sanityTranslations.ts:101 | `sort` keeps exactly the same elements |
| SanityTranslations.LanguagesOfMembers | apps/web/src/lib/sanityTranslations.ts:101 | the mapped languages are exactly the languages of the documents |
| SanityTranslations.GetAvailableLanguages | apps/web/src/lib/sanityTranslations.ts:98-102 | the result is strictly ascending and holds exactly the languages of the documents |
| SanityTranslations.StrictlyAscendingUnique | apps/web/src/lib/sanityTranslations.ts:101 | two strictly ascending lists with the same elements are equal |
| SanityTranslations.AvailableLanguagesAre | apps/web/src/lib/sanityTranslations.ts:98-102 | the available languages are the only strictly ascending list of the languages present |
| SanityTranslations.AvailableLanguagesDependOnlyOnLanguages | apps/web/src/lib/sanityTranslations.ts:98-102 | groups with the same languages present have the same available languages |
| SanityTranslations.HasTranslationInGroup | apps/web/src/lib/sanityTranslations.ts:110-115 | true exactly when some document has the language |
| SanityTranslations.HasTranslationMeansAvailable | apps/web/src/lib/sanityTranslations.ts:101-114 | a language is in a group exactly when it is among its available languages |
| SanityTranslations.HasTranslationMeansChosen | apps/web/src/lib/sanityTranslations.ts:34-38 | a group has the target language exactly when the chosen document is in that language |
| SanityTranslations.CreateTranslationQuery | apps/web/src/lib/sanityTranslations.ts:123-134 | the query starts with the type filter for the document type |
| SanityTranslations.QueryParts | apps/web/src/lib/sanityTranslations.ts:128-133 | proof helper, unfolding the definition: the query is the filter, the comma-joined base and extra fields, and the translation projection, in that order |
| SanityTranslations.BaseFieldsJoined | apps/web/src/lib/sanityTranslations.ts:127-128 | the base fields join to `_id, _type, language, translation` |
| SanityTranslations.FieldList | apps/web/src/lib/sanityTranslations.ts:128 | the field list is the base fields, followed by `, ` and the extra fields when there are any |
| SanityTranslations.QueryListsFields | apps/web/src/lib/sanityTranslations.ts:128-131 | the field list occurs in the query right after the filter |
| SanityTranslations.QueryProjectsTranslation | apps/web/src/lib/sanityTranslations.ts:132 | the query contains `translation->{_id, language}` |
| SanityTranslations.FirstQuoteAt | apps/web/src/lib/sanityTranslations.ts:130 | a quote with none before it is the first quote found |
| SanityTranslations.QueryAfterFirstQuote | apps/web/src/lib/sanityTranslations.ts:130 | after the query's first quote come the document type and a closing quote |
| SanityTranslations.QueryTypeRoundTrip | apps/web/src/lib/sanityTranslations.ts:130 | for a type without `"`, the text between the first two quotes of the query is the type |
| SanityTranslations.BuildLocalizedRoute | apps/web/src/lib/sanityTranslations.ts:142-151 | English routes are `/slug`; other languages are `/code/slug` |
| SanityTranslations.ParseLocalizedRoute | apps/web/src/lib/sanityTranslations.ts:158-177 | the language is the current language of the path; a path without a language is kept as it is |
| SanityTranslations.LanguageBranch | apps/web/src/lib/sanityTranslations.ts:166-170 | a path whose segments start with a language code parses to that language and the base path `/` followed by the other segments joined by `/` |
| SanityTranslations.ParsedBasePath | apps/web/src/lib/sanityTranslations.ts:162-170 | for any path with a language, the base path starts with `/` and its segments are the path's segments after the language one |
| SanityTranslations.RootedJoinSegments | apps/web/src/lib/sanityTranslations.ts:169 | `/` followed by non-empty, slash-free segments joined by `/` has exactly those segments |
| SanityTranslations.PrefixedSegments | apps/web/src/lib/sanityTranslations.ts:162 | the segments of `/code/slug` are the code followed by the segments of `/slug` |
| SanityTranslations.FrenchRouteRoundTrip | apps/web/src/lib/sanityTranslations.ts:142-177 | parsing a built French route for a clean slug gives French and `/slug` back |
| SanityTranslations.PrefixedPathParse | apps/web/src/lib/sanityTranslations.ts:162-170 | `/code/slug` with a clean slug parses to the code's language and `/slug`, for English and French alike |
| SanityTranslations.EnglishAboutPrefixedExample | apps/web/src/lib/sanityTranslations.ts:166-170 | `/en/about` parses as English with base path `/about` |
| SanityTranslations.SegmentsUnderCode | apps/web/src/lib/sanityTranslations.ts:162 | the segments of `/code/w` are the code followed by the non-empty pieces of `w` |
| SanityTranslations.DoubledSlashPieces | apps/web/src/lib/sanityTranslations.ts:162 | `x//y` splits into `x`, an empty piece and `y` |
| SanityTranslations.DoubledSlashSegments | apps/web/src/lib/sanityTranslations.ts:162 | a doubled slash leaves no empty segment |
| SanityTranslations.DoubledSlashParse | apps/web/src/lib/sanityTranslations.ts:162-170 | a route with a doubled slash parses to its pieces joined by single slashes |
| SanityTranslations.DoubleSlashCollapses | apps/web/src/lib/sanityTranslations.ts:162-170 | `/fr/a//b` parses as French with base path `/a/b` |
| SanityTranslations.EnglishRouteRoundTrip | apps/web/src/lib/sanityTranslations.ts:142-177 | parsing a built English route gives English and `/slug` back, unless the slug starts with a language code |
| SanityTranslations.EnglishSlugNamedAfterLanguage | apps/web/src/lib/sanityTranslations.ts:146-170 | the English route for slug `fr` parses as French: the round trip fails for such slugs |
| SanityTranslations.CleanPair | apps/web/src/lib/sanityTranslations.ts:162 | two non-empty parts without `/` joined by `/` form a clean slug |
| SanityTranslations.FrenchPathParse | apps/web/src/lib/sanityTranslations.ts:162-170 | `/fr/` plus a clean slug parses as French with `/slug` as base path |
| SanityTranslations.BuildExamples | apps/web/src/lib/sanityTranslations.test.ts:130-140 | `about` and `contact` build to `/about`, `/contact`, `/fr/about`, `/fr/contact` |
| SanityTranslations.SlugFrench | apps/web/src/lib/sanityTranslations.test.ts:167-171 | `/fr` parses as French with base path `/` |
| SanityTranslations.FrenchAboutExample | apps/web/src/lib/sanityTranslations.test.ts:149-153 | `/fr/about` parses as French with base path `/about` |
| SanityTranslations.FrenchNestedExample | apps/web/src/lib/sanityTranslations.test.ts:155-159 | `/fr/blog/my-post` parses as French with base path `/blog/my-post` |
| SanityTranslations.EnglishAboutExample | apps/web/src/lib/sanityTranslations.test.ts:143-147 | `/about` parses as English and is kept |
| SanityTranslations.RootExample | apps/web/src/lib/sanityTranslations.test.ts:161-165 | `/` parses as English with base path `/` |
| SanityExamples.DocumentByLanguageExamples | apps/web/src/lib/sanityTranslations.test.ts:38-63 | exact match, English fallback, first-document last resort, and `None` for no documents |
| SanityExamples.MockGrouping | apps/web/src/lib/sanityTranslations.test.ts:65-79 | the sample documents group as the linked English/French pair followed by the lone contact page |
| SanityExamples.SingleGrouping | apps/web/src/lib/sanityTranslations.test.ts:81-86 | one unlinked document forms one group of one |
| SanityExamples.GroupLanguageExamples | apps/web/src/lib/sanityTranslations.test.ts:105-114 | the sample group has `en` and `fr` but not `es` |
| SanityExamples.AvailableLanguagesExamples | apps/web/src/lib/sanityTranslations.test.ts:89-103 | the sample's languages are `["en", "fr"]`, also with a duplicate English document |
| SanityExamples.StaticPageQuery | apps/web/src/lib/sanityTranslations.test.ts:117-122 | the `staticPage` query contains its filter, the base fields and the translation projection |
| SanityExamples.BlogPostQuery | apps/web/src/lib/sanityTranslations.test.ts:124-127 | the `blogPost` query lists the base fields followed by `title, slug` |

## Left out

- `formatDate` and `formatNumber` (`translations.ts:313-336`): they call `Intl` date and number formatting, which is not modelled. Their locale choice is `GetLocaleString`.
- I18n.ParsePref: `parseFloat` is a parameter (`parseQuality`). A quality of `NaN` makes the source's comparator inconsistent, and that case is not modelled.
- Strings.Lower: lower-cases ASCII letters only; JavaScript's `toLowerCase` also maps other Unicode letters.
- Strings.Trim: removes space, tab, line feed, carriage return, vertical tab, form feed, no-break space, the byte-order mark and the line and paragraph separators. JavaScript's `trim` also removes the other Unicode space separators, such as U+2003 and U+3000.
- Strings.LexLessTotal: compares `char` values, while JavaScript's default `sort` compares UTF-16 code units; they differ only outside the Basic Multilingual Plane.
- Translations.Translate: requires a well-formed table. A table in which an `en` or `fr` key holds an object would make the source return that object from `t`; that case is not modelled.
- The `in` operator also finds inherited properties such as `constructor`, and so do the route-table lookups `frenchRoutes[cleanPath]` and `englishRoutes[cleanPath]` (`i18n.ts:87`, `i18n.ts:98`). For example `getLocalizedPath('/enconstructor', 'fr')` returns `/fr` followed by the text of the `Object` function, where `GetLocalizedPath` gives `/frconstructor`, and `__proto__` behaves the same way. `Walk` and `RouteOr` look up own keys only.
- The translation table is a parameter of every lookup; the site's table is `SiteTable.DefaultTable`.
- SanityTranslations.MutualReferencesShareGroup: requires distinct, non-empty ids. With an empty id, `translation._ref === ''` is not truthy, so mutual references through `''` can end in separate groups.
- SanityTranslations.EveryDocumentOnce: requires distinct ids. With duplicate ids the source keeps only one document per id (`DuplicateIdKeptOnce`), and that document is the first processed, not always the first in input order.
- SanityTranslations.HasTranslationInGroup: takes any language string, as the test that passes `'es'` does; `SupportedLanguage` values are `Code(En)` and `Code(Fr)`.
- SanityTranslations.CreateTranslationQuery: models the text of the query only; what GROQ does with it is not modelled.
- Fetching documents from the CMS (`sanity.ts`), the site configuration, the CMS schemas and the UI components are not part of this model.
