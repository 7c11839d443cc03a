# Career site front end: a Dafny model of its data logic

This project models the data logic of the eight core files of a Next.js
marketing and careers site: the rules listed below, which those files apply
to CMS data, cookies, headers and clicks before the result becomes markup.
Their label and alt-text fallbacks, and the rest of the site, are left out
(see "## Left out"). The modelled rules cover:

- the one-minute in-memory cache of the global settings (`globalController.tsx`);
- the locale negotiation (`locale.ts`);
- the job board (`CareerJobListings.tsx`): grouping by department, the filter
  dropdowns, the search/category/location filters, location keys, and the
  expand/collapse state;
- the index arithmetic of the two carousels (`Testimonial.tsx`, `FeatureSlider.tsx`);
- the button and image choices of `TextImageSection.tsx`, and its rich-text and `reversed` defaults;
- the per-section wrapper styling and tag dispatch of `HomeLayout.tsx`;
- the three highlight cards and their defaults (`CareerHighlights.tsx`).

Each source file has its own module, and `CareerJobListings.tsx` has two:
`JobListings`, and `LocationKey` for its `createLocationKey` slug. The two
carousels share the file `carousel.dfy`, as the modules `Testimonial` and
`FeatureSlider`. React state becomes an immutable value and
each handler a pure step function on it. The clock, the result of a network
fetch, the cookie and the header are parameters. Shared JavaScript idioms
live in `Common`:

- `x || default` on strings;
- ASCII `toLowerCase`;
- `includes`;
- `split(c)[0]`;
- `filter`;
- `[...new Set(xs)]`.

## Model

| member | source | states |
|---|---|---|
| GlobalController.IsFresh | controllers/page/globalController.tsx:14-17 | A cache hit needs both variables set. A timestamp of 0 never hits. Otherwise the entry hits until 60000 ms after it was stored, exclusive. |
| GlobalController.Get | controllers/page/globalController.tsx:12-37 | Covers one call of `getGlobalData`. A fresh cache (payload present, timestamp present and non-zero, age under 60000 ms) is returned without a fetch and the state is unchanged; anything else fetches. A payload replaces both variables and is returned. A null payload changes nothing and returns null, not the stale cache. A thrown fetch changes nothing and returns the stale cache. "Payload present iff timestamp present" is preserved. |
| GlobalController.WindowIsStrict | controllers/page/globalController.tsx:10-17 | A payload exactly 60000 ms old is fetched again; one 59999 ms old is served. |
| GlobalController.ColdStartFailureYieldsNull | controllers/page/globalController.tsx:8-9 | From the initial state, a fetch that throws or returns null yields null and leaves the state initial. |
| GlobalController.Run | controllers/page/globalController.tsx:12-37 | A sequence of calls yields one result per call and at most one fetch per call. |
| GlobalController.RunKeepsConsistency | controllers/page/globalController.tsx:8-9 | Any number of calls keeps payload and timestamp present or absent together. |
| GlobalController.InitialIsConsistent | controllers/page/globalController.tsx:8-9 | Both variables start out null together. |
| GlobalController.WithinWindowNoFetch | controllers/page/globalController.tsx:14-20 | Calls that all fall inside the window of a stored payload fetch nothing, all return that payload, and leave the cache as it was. |
| GlobalController.FailedRefreshRetries | controllers/page/globalController.tsx:26-36 | A failed refresh does not advance the timestamp, so the next call fetches again. |
| GlobalController.RefreshScenario | controllers/page/globalController.tsx:12-37 | Calls at t, t+30 s, t+61 s and t+61.5 s (t non-zero) make exactly two fetches. The results are the first payload twice, then the second payload twice. |
| GlobalController.ZeroTimestampScenario | controllers/page/globalController.tsx:16 | A payload stored at clock reading 0 is never served from the cache: the next call fetches again. |
| GlobalController.GetNavigation | controllers/page/globalController.tsx:42-45 | The payload's navigation, or `[]` when there is no payload or it has no navigation. The cache state is the one `getGlobalData` leaves. |
| GlobalController.GetFooterLinks | controllers/page/globalController.tsx:50-53 | The payload's footer categories, or `[]` when there is no payload or it has no `FooterLinks`. |
| GlobalController.GetSocialLinks | controllers/page/globalController.tsx:58-61 | The payload's social links, or `[]` when there is no payload or it has no social links. |
| GlobalController.ColdStartFailureEmptyLists | controllers/page/globalController.tsx:42-61 | On a cold start whose fetch fails, all three accessors give `[]`. |
| GlobalController.Preload | controllers/page/globalController.tsx:66-72 | Leaves the cache as a call of `getGlobalData` would. A thrown fetch leaves it unchanged and is not propagated. |
| Locale.BrowserLang | lib/locale.ts:10-11 | The header up to its first `,` or `-`: a prefix free of both characters, ending at one of them or at the end. It is absent exactly when the header is. |
| Locale.GetLocale | lib/locale.ts:3-20 | The result is always en, fr or bn. A supported cookie wins. Otherwise a supported browser language wins. Otherwise the result is "en". |
| Locale.StoredLocaleIsKept | lib/locale.ts:4-8 | Once the negotiated locale is stored in the cookie, the next request negotiates the same locale, whatever its header. |
| Locale.OnlyFirstListElement | lib/locale.ts:11 | Everything after the first `,` of the header is ignored. |
| Locale.RegionSubtagIgnored | lib/locale.ts:11 | `xx-YY` negotiates exactly like `xx`. |
| Locale.ExampleRegionAndList | lib/locale.ts:10-16 | The header "fr-CA,en;q=0.8" gives "fr". |
| Locale.ExampleLaterElementIgnored | lib/locale.ts:11-13 | The header "de,fr" gives "en". |
| Locale.ExampleQualityValueKept | lib/locale.ts:11-13 | The header "fr;q=0.9" gives "en": the quality value is not stripped. |
| Locale.ExampleCaseSensitive | lib/locale.ts:5-13 | The header "FR-CA" gives "en". The cookie "FR" is ignored in favour of the header "bn". |
| Locale.NegotiatesUnconfiguredLocale | lib/locale.ts:5 | "fr" can be negotiated although the i18n configuration declares only en and bn. |
| JobListings.Bucket | components/sections/Career/CareerJobListings.tsx:31-39 | A position is in its department's bucket exactly when it is in the list and has that department. |
| JobListings.GroupByDepartment | components/sections/Career/CareerJobListings.tsx:31-39 | The grouping makes at most one group per position, and no group is empty. |
| JobListings.Insert | components/sections/Career/CareerJobListings.tsx:33-38 | One `reduce` step adds the department key when it is new and leaves the key list alone otherwise. |
| JobListings.Departments | components/sections/Career/CareerJobListings.tsx:42-49 | The department list is duplicate-free and holds exactly the values `department \|\| "Other"` of the positions. |
| JobListings.Locations | components/sections/Career/CareerJobListings.tsx:51-56 | The location list is duplicate-free and holds exactly the values `location \|\| "Remote"` of the positions. |
| JobListings.DropdownOrder | components/sections/Career/CareerJobListings.tsx:42-56 | Both dropdowns list their entries in order of first occurrence. |
| JobListings.GroupKeys | components/sections/Career/CareerJobListings.tsx:31-49 | The group keys are exactly the department list, in the same order. |
| JobListings.GroupContents | components/sections/Career/CareerJobListings.tsx:31-39 | Each group holds exactly its department's positions, in input order. |
| JobListings.GroupTotalSize | components/sections/Career/CareerJobListings.tsx:31-39 | The groups together hold as many positions as the input. |
| JobListings.GroupingIsPartition | components/sections/Career/CareerJobListings.tsx:31-39 | Keys, contents and total size together: the grouping is an order-keeping partition. |
| JobListings.LookupIsBucket | components/sections/Career/CareerJobListings.tsx:80 | `positionsByDepartment[dept]` is the department's bucket. |
| JobListings.EachPositionInOneGroup | components/sections/Career/CareerJobListings.tsx:31-39 | Every position is in the group of its department and in no other group. |
| JobListings.SelectDepartments | components/sections/Career/CareerJobListings.tsx:73-97 | The department filter keeps exactly the keys whose category is selected and which have a matching position, in key order. |
| JobListings.AnyMatchBucket | components/sections/Career/CareerJobListings.tsx:80-96 | `some` over a department's group is `some` over the positions with that department. |
| JobListings.FilteredDepartmentsSpec | components/sections/Career/CareerJobListings.tsx:73-97 | A department is listed iff the category is "All categories" or equals it, and some position of it matches. A position matches when the query is empty or a case-insensitive substring of its title or department, and the location is "All locations" or equals `location \|\| "Remote"`. Listed departments keep dropdown order. |
| JobListings.MatchesSearch | components/sections/Career/CareerJobListings.tsx:84-88 | An empty query matches every position. Otherwise a position matches when the lower-cased query occurs in its lower-cased title (default "") or department (default "Other"). A query equal to the title or department, up to case, always matches. |
| JobListings.PositionMatches | components/sections/Career/CareerJobListings.tsx:80-94 | A match always passes the search. With "All locations" the location is ignored. A position with a non-empty location matches a selected location exactly when the two are equal, in both filters. |
| JobListings.RawAndDefaultedDiffer | components/sections/Career/CareerJobListings.tsx:207-220 | The two filters disagree exactly on a searched position whose location is missing or empty, when "Remote" is selected or when "" is selected and the location is "". |
| JobListings.MatchingPositions | components/sections/Career/CareerJobListings.tsx:203-223 | The rendering filter keeps every copy of a position that meets its condition, and no copy of any other position. |
| JobListings.MatchingPositionsInOrder | components/sections/Career/CareerJobListings.tsx:203-223 | The rendering filter keeps input order. |
| JobListings.Render | components/sections/Career/CareerJobListings.tsx:202-226 | Each rendered block belongs to a listed department, is non-empty, and shows that department's filtered positions. The blocks follow the department order. Every listed department whose filtered list is non-empty renders its block. This holds for both location comparisons. |
| JobListings.RenderedBlocksOnceEach | components/sections/Career/CareerJobListings.tsx:202-204 | No department renders more than one block. |
| JobListings.RenderedPositionsFromBucket | components/sections/Career/CareerJobListings.tsx:202-226 | Rendered positions form a subsequence of their department's bucket and pass the raw-location comparison. With a non-empty selected location they also pass the department filter's condition. |
| JobListings.RenderDefaultedKeepsAll | components/sections/Career/CareerJobListings.tsx:202-226 | With the defaulted location comparison, every department that has a matching position renders a block. |
| JobListings.IntendedRenderMatchesListing | components/sections/Career/CareerJobListings.tsx:191-226 | With the defaulted location comparison in both filters, the rendered departments are exactly the listed ones. The page is blank exactly when the "no results" message shows. |
| JobListings.ListedDepartmentRendersNothing | components/sections/Career/CareerJobListings.tsx:83-94 | As written, a position without a location, filtered by "Remote", gets its department listed. The "no results" message is suppressed and nothing renders. |
| JobListings.ToggleCategory | components/sections/Career/CareerJobListings.tsx:99-106 | Toggling the open category collapses it and clears the open position. Toggling another category opens it and keeps the open position. |
| JobListings.TogglePosition | components/sections/Career/CareerJobListings.tsx:108-114 | The category is untouched. Afterwards the position is open exactly when it was not open before. |
| JobListings.TogglePositionTwice | components/sections/Career/CareerJobListings.tsx:108-114 | Two toggles restore the state when nothing or that same position was open. When another position was open, it ends closed. |
| JobListings.ToggleCategoryTwice | components/sections/Career/CareerJobListings.tsx:99-106 | Toggling a closed category twice collapses everything. |
| LocationKey.DropSpaces | components/sections/Career/CareerJobListings.tsx:63 | Removing a leading whitespace run never lengthens the string. |
| LocationKey.Collapse | components/sections/Career/CareerJobListings.tsx:63 | `replace(/\s+/g, "-")` leaves no whitespace and never lengthens the string. |
| LocationKey.Strip | components/sections/Career/CareerJobListings.tsx:64 | Exactly the `[a-z0-9-]` characters of the input survive, every occurrence of each. |
| LocationKey.Slug | components/sections/Career/CareerJobListings.tsx:61-64 | The slug is made of `[a-z0-9-]` characters only and is never longer than the input. |
| LocationKey.CreateLocationKey | components/sections/Career/CareerJobListings.tsx:59-65 | The key starts with "loc-" and everything after it is in `[a-z0-9-]`. |
| LocationKey.CollapseNoSpace | components/sections/Career/CareerJobListings.tsx:63 | A string without whitespace is left alone by the first replacement. |
| LocationKey.DropSpacesRun | components/sections/Career/CareerJobListings.tsx:63 | A whole whitespace run is dropped, up to the first non-space. |
| LocationKey.CollapseRun | components/sections/Career/CareerJobListings.tsx:63 | A whitespace run of any length becomes exactly one `-`. |
| LocationKey.CollapseOneSpace | components/sections/Career/CareerJobListings.tsx:63 | Two words without whitespace, separated by one space, are joined by exactly one `-`. |
| LocationKey.StripDropsOne | components/sections/Career/CareerJobListings.tsx:64 | One character outside `[a-z0-9-]` between two key strings is removed and nothing else changes. |
| LocationKey.StripKeyChars | components/sections/Career/CareerJobListings.tsx:64 | A string of key characters survives the second replacement unchanged. |
| LocationKey.SlugFixpoints | components/sections/Career/CareerJobListings.tsx:59-65 | The slug leaves a string unchanged exactly when the string is made of key characters. |
| LocationKey.SlugIdempotent | components/sections/Career/CareerJobListings.tsx:59-65 | Slugging a slug changes nothing. |
| LocationKey.ExampleSlugOfKeyString | components/sections/Career/CareerJobListings.tsx:59-65 | "new-york" slugs to itself. |
| LocationKey.ExampleCollapseOneSpace | components/sections/Career/CareerJobListings.tsx:63 | "new york" becomes "new-york". |
| LocationKey.ExampleSlugOfName | components/sections/Career/CareerJobListings.tsx:59-65 | "New York" slugs to "new-york". |
| LocationKey.ExampleCollision | components/sections/Career/CareerJobListings.tsx:170-171 | Distinct dropdown entries "New York" and "new-york" get the same option key. |
| LocationKey.ExampleCollapseAroundComma | components/sections/Career/CareerJobListings.tsx:63 | "a , b" becomes "a-,-b". |
| LocationKey.ExampleStripComma | components/sections/Career/CareerJobListings.tsx:64 | "a-,-b" becomes "a--b". |
| LocationKey.ExamplePunctuationBetweenSpaces | components/sections/Career/CareerJobListings.tsx:59-65 | Spaces become `-` before punctuation is dropped, so "A , B" slugs to "a--b". |
| Testimonial.Next | components/sections/Testimonial.tsx:33-37 | For an index inside the list, the next index is inside the list and equals `(i + 1) % len`. |
| Testimonial.NextWraps | components/sections/Testimonial.tsx:34-35 | The next index is 0 exactly for the last testimonial; any other index moves one on. |
| Testimonial.Apply | components/sections/Testimonial.tsx:107-120 | A dot click sets exactly the dot's index. An offered event keeps the index inside the list. |
| Testimonial.ActiveStaysInRange | components/sections/Testimonial.tsx:33-37 | Any run of offered events keeps the active index inside the list. |
| Testimonial.Render | components/sections/Testimonial.tsx:31-47 | An absent or empty list renders nothing. Otherwise the active testimonial shows, and an index outside the list fails. |
| Testimonial.NeverFails | components/sections/Testimonial.tsx:23-51 | From index 0, any run of clicks on a non-empty list shows a testimonial. |
| Testimonial.AbsentRendersNothing | components/sections/Testimonial.tsx:31-47 | Absent testimonials render nothing. |
| Common.IndicesAreTheRange | components/sections/Testimonial.tsx:107-115 | The dots offer exactly the indices 0 to len-1. |
| FeatureSlider.JsRem | components/sections/FeatureSlider.tsx:22 | JavaScript's `%` agrees with the mathematical remainder for a non-negative dividend and takes the dividend's sign otherwise. |
| FeatureSlider.Tick | components/sections/FeatureSlider.tsx:22 | For an index inside the list, one tick stays inside it, wrapping the last slide to 0. |
| FeatureSlider.AutoAdvance | components/sections/FeatureSlider.tsx:19-26 | No interval for an empty list. Otherwise a tick keeps the index inside the list. The effect runs only after a render that did not throw, so the list is present. |
| FeatureSlider.TicksOffset | components/sections/FeatureSlider.tsx:22 | k ticks from `start` land on `start + k`, wrapped once. |
| FeatureSlider.TicksPeriod | components/sections/FeatureSlider.tsx:22 | Exactly len ticks, and no fewer, bring the slider back to where it started. |
| FeatureSlider.Apply | components/sections/FeatureSlider.tsx:28-30 | `goToSlide(i)` sets exactly `i`. An offered event keeps the index inside the list. |
| FeatureSlider.CurrentStaysInRange | components/sections/FeatureSlider.tsx:19-30 | Any run of ticks and dot clicks keeps the index inside the list. |
| FeatureSlider.Render | components/sections/FeatureSlider.tsx:32-55 | An absent slide list fails (`section.slides.length` without a fallback). An empty list renders null. Otherwise the current slide shows, and an index outside the list fails. |
| FeatureSlider.AlwaysRenders | components/sections/FeatureSlider.tsx:14-97 | With the list present, from slide 0, any run of ticks and dot clicks leaves a slide to render. |
| TextImageSection.Content | components/sections/TextImageSection.tsx:33-35 | The rich text when it is an array, else `[]`. |
| TextImageSection.Reversed | components/sections/TextImageSection.tsx:38 | `reversed` defaults to false. |
| TextImageSection.ImageUrl | components/sections/TextImageSection.tsx:37 | The large rendition's URL when it is non-empty, else the image's own URL, else absent. |
| TextImageSection.ImageShownIffSomeUrl | components/sections/TextImageSection.tsx:37-56 | The image is drawn exactly when one of the two URLs is non-empty; the large one wins. |
| TextImageSection.ValidButtons | components/sections/TextImageSection.tsx:41 | Exactly the buttons with a non-empty text, every copy of each, in their original order. An absent list gives `[]`. |
| TextImageSection.FindIndexById | components/sections/TextImageSection.tsx:259-260 | The first index holding the id, or -1 exactly when no button has it. |
| TextImageSection.OriginalIndex | components/sections/TextImageSection.tsx:259-260 | Index 0 exactly when there is no button list or the list's first button carries the id. -1 exactly when the list holds no button with the id, since `-1 \|\| 0` stays -1. |
| TextImageSection.RenderButtons | components/sections/TextImageSection.tsx:255-279 | One entry per valid button, in order. An entry is primary exactly when its id is first found at original index 0. |
| TextImageSection.PrimaryIffFirstId | components/sections/TextImageSection.tsx:259-262 | A button is primary exactly when it shares its id with the first button of the list. |
| TextImageSection.PrimaryIffFirstEntry | components/sections/TextImageSection.tsx:259-262 | With unique ids, a rendered button is primary exactly when it is the first entry of the list. |
| TextImageSection.EmptyFirstMeansNoPrimary | components/sections/TextImageSection.tsx:259-262 | With unique ids and an empty first button, every rendered button is secondary. |
| TextImageSection.AtMostOnePrimary | components/sections/TextImageSection.tsx:257-279 | With unique ids, at most one button is drawn as primary. |
| TextImageSection.ExampleRepeatedIdTwoPrimaries | components/sections/TextImageSection.tsx:259-262 | A later button repeating the first button's id is drawn as primary too. |
| HomeLayout.RenderSection | components/layouts/HomeLayout.tsx:17-57 | No component exactly for tags outside the six handled ones. Otherwise the component belongs to that tag. |
| HomeLayout.DispatchRoundTrip | components/layouts/HomeLayout.tsx:17-57 | Every component is reached from its own tag and from no other. |
| HomeLayout.Background | components/layouts/HomeLayout.tsx:60-66 | Hero and feature grid are white and call-to-action is purple. Any other tag is gray at even positions and white at odd ones. |
| HomeLayout.NeighboursAlternate | components/layouts/HomeLayout.tsx:65 | Two neighbouring sections without a fixed colour never share a background. |
| HomeLayout.Padding | components/layouts/HomeLayout.tsx:69-75 | `py-0` exactly for hero and ticker, the standard padding otherwise. |
| HomeLayout.Container | components/layouts/HomeLayout.tsx:88-102 | No container exactly for the ticker. Otherwise max-w-full for hero, max-w-5xl for call-to-action and max-w-7xl for the rest. |
| HomeLayout.EdgeToEdgeSectionsUnpadded | components/layouts/HomeLayout.tsx:69-102 | A section has no vertical padding exactly when it is full width or has no container (hero and ticker). |
| HomeLayout.Layout | components/layouts/HomeLayout.tsx:79-108 | One wrapper per section, in input order, styled from the section's tag and position. |
| HomeLayout.LayoutAppend | components/layouts/HomeLayout.tsx:79-108 | Appending sections keeps the existing wrappers. New wrappers depend only on their own section, except that the background alternation counts on from the page length. |
| HomeLayout.UnknownTagKeepsWrapper | components/layouts/HomeLayout.tsx:79-108 | A section with an unknown tag still gets its wrapper and key, with an empty body. |
| HomeLayout.ExampleHeroThenTextImage | components/layouts/HomeLayout.tsx:61-65 | A hero followed by a plain section gives two white bands. |
| CareerHighlights.DefaultTitle | components/sections/Career/CareerHighlights.tsx:109-112 | The named title for 0..2, else "Feature Highlight". Never empty. |
| CareerHighlights.DefaultDescription | components/sections/Career/CareerHighlights.tsx:114-121 | The named text for 0..2, else "Description content goes here.". Never empty. |
| CareerHighlights.CardFor | components/sections/Career/CareerHighlights.tsx:47-70 | Each card field is the highlight's own non-empty value or its default. Link text defaults to "Learn more" and the URL to "#". The key is the id unless it is absent or 0. |
| CareerHighlights.Render | components/sections/Career/CareerHighlights.tsx:33-47 | At most three cards: the first highlights in order, or none for an absent list. |
| CareerHighlights.LaterHighlightsIgnored | components/sections/Career/CareerHighlights.tsx:47 | Highlights after the third change nothing. |
| CareerHighlights.DistinctIdsGiveDistinctKeys | components/sections/Career/CareerHighlights.tsx:47-49 | Two shown highlights with distinct non-zero ids get distinct React keys. |
| CareerHighlights.ExampleKeyCollision | components/sections/Career/CareerHighlights.tsx:47-49 | The index fallback can collide with an id: highlights with ids 2, none, none give the first and third cards the same key 2. |
| CareerHighlights.AbsentRendersNothing | components/sections/Career/CareerHighlights.tsx:33 | An absent list renders no card. |
| CareerHighlights.TitlesFromOwnOrNamedDefault | components/sections/Career/CareerHighlights.tsx:109-112 | Every shown title is non-empty: the highlight's own title or the named default of its column. "Feature Highlight" is never reached. |
| CareerHighlights.ImageSource | components/sections/Career/CareerHighlights.tsx:84-99 | The image URL when it is non-empty, else the placeholder. |
| Common.Includes | components/sections/Career/CareerJobListings.tsx:86-88 | `includes` holds exactly when the needle occurs at some position. |
| Common.PrefixBefore | lib/locale.ts:11 | `split(c)[0]` is a prefix free of `c`, ending at the first `c` or at the end. |
| Common.Dedup | components/sections/Career/CareerJobListings.tsx:43-47 | `[...new Set(xs)]` is duplicate-free and holds exactly the elements of `xs`. |
| Common.DedupFirstOccurrenceOrder | components/sections/Career/CareerJobListings.tsx:43-47 | `[...new Set(xs)]` lists values in order of first occurrence. |
| Common.LowerProperties | components/sections/Career/CareerJobListings.tsx:86-88 | Lower-casing keeps the length, leaves no upper-case letter, and is idempotent. |

## Left out

- Network and runtime:
  - The settings fetch, cookies, headers and the clock are inputs.
  - `console` logging and the React rendering itself are not modelled.
- Concurrency: overlapping calls of `getGlobalData` are not modelled. Each call is one atomic step, although two calls can fetch at the same time and the two variables are written separately.
- The fetch time: `getGlobalData` reads `Date.now()` before the fetch for the freshness check and after it for the stored timestamp. The model takes both readings as inputs (`now` and `Fetched.at`).
- A fetch at time 0: `getGlobalData` requires the stored timestamp to be truthy, so a payload stored at clock reading 0 is never served from the cache (`ZeroTimestampScenario`). A first fetch at time 0 followed by a cache hit 30 s later is therefore not what happens.
- Locale configuration: `locale.ts` accepts en, fr and bn, but the i18n configuration (`next-i18next.config.ts`) declares only en and bn. The model follows `locale.ts` (`NegotiatesUnconfiguredLocale`).
- Case folding: `toLowerCase` is modelled on ASCII only. A few non-ASCII letters fold to ASCII (Kelvin sign to "k", dotted capital I to "i" plus a combining mark). They could survive `createLocationKey` and match a search; the model drops them.
- JavaScript whitespace: `\s` is modelled as the full JavaScript whitespace set.
- Object key order: `Object.keys` lists integer-like keys (such as a department named "2024") first, in numeric order. The model keeps the order of first occurrence.
- Prototype keys: with a department named like an `Object.prototype` member ("constructor", "toString"), `acc[dept]` finds the inherited member instead of `undefined`. The model treats every name as a fresh key.
- Layout: the job board's search box, the dropdown `onChange` handlers and the loading flag are not modelled; the model starts from the chosen filter values. The requirements rendering (`getRequirementsContent`) is the same `Array.isArray` default as `TextImageSection.Content`.
- JobListings.TogglePositionTwice: two toggles restore the open position only when nothing or that same position was open. When a different position was open, the first toggle replaces it and the second closes it, so the original state is not restored.
- Animation and visibility:
  - `useInView`, the visibility flags and the transition classes are not modelled.
  - The slider's `setInterval` and `clearInterval` are not modelled; only the step the interval performs is.
  - Neither carousel resets its index when its list shrinks between renders. The model takes the list as fixed for a run of events.
  - Testimonial.NeverFails and FeatureSlider.AlwaysRenders hold only for a list that stays the same. If `section.testimonials` shrinks below `activeIndex + 1`, `testimonials[activeIndex].avatar` throws on the next render, before any click (`Testimonial.tsx` lines 23, 31 and 51). If the slides shrink, `slides[currentSlide]` fails the same way.
- Labels and alt texts in the core files: these fallbacks and guards only choose text or markup, and none is modelled.
  - `CareerJobListings.tsx` shows `section.title || "Openings"` (line 23) and `position.title || "Untitled Position"` (line 257).
  - `TextImageSection.tsx` uses `section.title || "Section image"` as the image's alt text (line 60).
  - `TextImageSection.tsx` draws its features list only when `section.features` is present and non-empty. It draws a feature's icon only when `feature.icon?.url` is truthy. It renders a feature's description through the same `Array.isArray` default as `TextImageSection.Content` (lines 157-174).
  - `Testimonial.tsx` uses `name || "Testimonial avatar"` as the avatar's alt text (line 54).
  - `FeatureSlider.tsx` builds its background URL from `section?.backgroundImage?.url` with no fallback, so without an image the URL ends in the text "undefined" (line 17).
- Third-party rendering: `BlocksRenderer` and `next/image` are not modelled. Rich text is an opaque list of blocks.
- Other files: the rest of the site is not modelled. That covers the presentational sections, the other layouts, `lib/api.ts`, the hooks and the Next.js pages. They hold a few small defaults of the same kind as the modelled ones, none of them modelled:
  - `Navbar.tsx` shows only the first four navigation items (`slice(0, 4)`).
  - `Footer.tsx` picks a social icon by the lower-cased platform name.
  - `app/page.tsx` builds the page metadata from `metaTitle || title` and `metaDescription || description`.
  - `Ticker.tsx` defaults its items to `[]` and repeats the list once for the loop.
  - `CallToAction.tsx` uses the same large-or-plain image-URL fallback as `TextImageSection.ImageUrl`.

## Findings

| source | as written | input that shows it | evidently intended | confidence | as-written member | corrected member |
|---|---|---|---|---|---|---|
| components/sections/Career/CareerJobListings.tsx:203-221 | The rendering filter compares the raw `position.location` with the selected location. The department filter (line 83) compares `location \|\| "Remote"`. | One position `{title: "Engineer", department: "Engineering"}` with no location, with "Remote" selected. "Engineering" is listed, so the "no results" message is hidden, yet it renders no position: the page is blank. | Both filters compare `location \|\| "Remote"`. Then the rendered departments are exactly the listed ones, and the page is blank only when the message shows. | high; not executed | JobListings.ListedDepartmentRendersNothing | JobListings.IntendedRenderMatchesListing |
