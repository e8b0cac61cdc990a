# Portfolio site helpers, modelled in Dafny

The portfolio repository has two front ends: a SvelteKit site and an older single-page site in plain
JavaScript. Most of their code is presentation: DOM templates, a Three.js scene and timer-driven
animation. Running through it is a set of small, deterministic helpers over strings, integers and
JSON-shaped résumé data. This project models those helpers as pure Dafny functions and small state
records, and proves what the code promises about them. Browser inputs are turned into parameters: the
current year, fetch results, section boxes, the saved language and the random colour draw.

One module per source file:

- `I18n`: `t` (a dotted-key walk plus `{name}` substitution) and `getInitialLanguage`.
- `Avatar`: initials, the DiceBear style, the six-digit colour.
- `Gallery`: the image filter, base names, title case, categories and item numbering.
- `ProfilePage`: the SvelteKit page load and its schema.org structured data.
- `DataLoader`: the profile loader's state machine, the observer registry, year and revenue extraction,
  and slugs.
- `ResumeText`: the regular-expression scanners shared by the loader and the experience view.
- `Experience`: statistics, impact metrics and timeline progress.
- `Skills`: skill flattening, counting, the relation, category names and the connection rule.
- `AiShowcase`: metric cards.
- `Hero`: the title rotation, truncation, buttons, the download file name and the text summary.
- `Contact`: channels, the mail subject, statistics, the counter colour and the easter egg.
- `Navigation`: keyboard and section navigation.
- `ConfigUtils`: `formatDuration`, `deepMerge` and `validateEmail`.

Shared modules:

- `JsText` holds the JavaScript string built-ins the code relies on: white space, `\w`, ASCII case
  mapping, `trim`, `indexOf`, `split`, `parseInt` and decimal rendering.
- `Json` holds the JSON value tree, with object fields in enumeration order.
- `Profile` holds the résumé record.

Regular expressions are modelled as explicit left-to-right scanners. Where the engine backtracks, the
model works out the match it settles on: for example, `(\d+)%?\s*(.+)` gives back a space or a digit
to `.+`. JavaScript's `x in obj` also accepts names every object inherits, such as `toString` and
`constructor`. The model keeps that: `IsInheritedMember` lists the twelve names of `Object.prototype`.

## Model

| member | source | states |
|---|---|---|
| I18n.PrimarySubtag | src/lib/i18n/store.ts:13 | the primary subtag is the longest prefix without `-`, and when it is shorter than the tag a `-` follows it |
| I18n.InitialLanguage | src/lib/i18n/store.ts:8-17 | outside the browser the language is `en`; a non-empty saved value that passes `in languages` is chosen; failing that, the browser's primary subtag if it passes the test, else `en`; the result always passes the `in` test |
| I18n.SavedPreferenceWins | src/lib/i18n/store.ts:10-14 | a usable saved preference gives the same language whatever the browser reports |
| I18n.InitialLanguageIsOwnKey | src/lib/i18n/store.ts:11-14 | when neither input is an inherited property name, the choice is one of the five own language keys |
| I18n.InheritedNameAccepted | src/lib/i18n/store.ts:11 | a saved `toString` passes `saved in languages` and is returned, though it is no language |
| I18n.Walk | src/lib/i18n/utils.ts:41-50 | an empty path stays where it is, and a step is only taken from an object or an array |
| I18n.WalkConcat | src/lib/i18n/utils.ts:41-50 | walking the segments `p + q` is walking `p`, then walking `q` from where `p` ended |
| I18n.Resolve | src/lib/i18n/utils.ts:41-55 | a dotted key resolves exactly when the walk over its `.`-separated segments ends on a string, and the result is that string |
| I18n.WordPrefix | src/lib/i18n/utils.ts:57 | the `\w+` run at the front: a prefix of word characters that no word character follows |
| I18n.InheritedText | src/lib/i18n/utils.ts:57 | what an inherited member prints as when the replacer returns it: never empty and never starting with `{` |
| I18n.Replacement | src/lib/i18n/utils.ts:57 | a non-empty own parameter is inserted; a name with no own parameter that every object inherits, such as `toString`, inserts the inherited member's text; otherwise the placeholder `{name}` stays |
| I18n.Substitute | src/lib/i18n/utils.ts:57 | text without `{` comes back unchanged |
| I18n.PlaceholderReplacedOnce | src/lib/i18n/utils.ts:57 | a `{name}` at the front becomes the replacer's value for `name`, inherited members included, and the inserted text is not scanned again |
| I18n.LiteralCopied | src/lib/i18n/utils.ts:57 | a character that does not open a placeholder is copied unchanged |
| I18n.NoParamsIdentity | src/lib/i18n/utils.ts:57 | with no parameters, a string none of whose placeholders names an inherited member comes back unchanged |
| I18n.InheritedPlaceholderShown | src/lib/i18n/utils.ts:57 | a placeholder naming an inherited member that no parameter fills, such as `{toString}`, prints the member instead of staying verbatim |
| I18n.Translate | src/lib/i18n/utils.ts:31-58 | the key is returned when the language table is missing or has no keys, or when the walk over the key's segments does not end on a string; when it ends on a string, that string with its placeholders filled |
| I18n.TranslateStoredText | src/lib/i18n/utils.ts:41-57 | without parameters, any key whose walk ends on a stored string gives that string back, unless a placeholder in it names an inherited member |
| I18n.NestedKeyFound | src/lib/i18n/utils.ts:41-57 | `t('a.b')` on `{a: {b: text}}` gives `text` when no placeholder of `text` names an inherited member |
| I18n.SubTableGivesKey | src/lib/i18n/utils.ts:52-55 | a key that ends on a sub-table gives back the key |
| I18n.StrayPathGivesKey | src/lib/i18n/utils.ts:44-48 | a walk that meets a string before its last segment, or a key the table lacks, gives back the key |
| Avatar.FirstChars | src/lib/utils/avatar.ts:4-5 | at most one character per part |
| Avatar.FirstCharsOfWords | src/lib/utils/avatar.ts:4-5 | when no part is empty, character `k` is the first character of part `k`, one per part |
| Avatar.FirstCharsAreWordStarts | src/lib/utils/avatar.ts:2-5 | splitting on `' '` and joining each part's first character picks exactly the non-space characters that start the name or follow a space |
| Avatar.Initials | src/lib/utils/avatar.ts:1-8 | the initials have at most two characters, none of them a lower-case ASCII letter, and an empty name gives `""` |
| Avatar.InitialsAreWordStarts | src/lib/utils/avatar.ts:1-8 | the initials are the first two word starts of the name, upper-cased |
| Avatar.ExtraSpacesIgnored | src/lib/utils/avatar.ts:3-5 | leading, trailing and doubled spaces leave the initials unchanged |
| Avatar.Style | src/lib/utils/avatar.ts:20 | the style is `bottts` exactly when the lower-cased title contains `manager`, and `pixel-art` otherwise |
| Avatar.StyleIgnoresCase | src/lib/utils/avatar.ts:20 | an upper-cased title gets the same style |
| Avatar.Hex | src/lib/utils/avatar.ts:13 | `toString(16)` writes at least one hexadecimal digit and nothing else |
| Avatar.HexRoundTrip | src/lib/utils/avatar.ts:13 | `toString(16)` reads back as the number, and a value below 16^6 takes at most six digits |
| Avatar.PadStart | src/lib/utils/avatar.ts:14 | `padStart(6, '0')` keeps the text as a suffix and puts only `0`s before it |
| Avatar.HexValueLeadingZeros | src/lib/utils/avatar.ts:14 | leading zeros do not change a hexadecimal value |
| Avatar.BackgroundColor | src/lib/utils/avatar.ts:11-15 | for every draw below 16777215 the colour has exactly six hexadecimal digits and reads back as the draw |
| Avatar.AvatarUrl | src/lib/utils/avatar.ts:17-23 | the URL starts with the DiceBear base and the title's style, and ends with the six-digit colour |
| Avatar.AvatarFallback | src/lib/utils/avatar.ts:25-30 | the fallback URL is seeded with the initials, not the full name |
| Avatar.BuildersAgreeOnStyle | src/lib/utils/avatar.ts:20-27 | both URL builders choose the same style for the same title |
| Gallery.ImageFiles | src/routes/gallery/+page.server.ts:12-14 | the kept files are exactly those whose lower-cased name ends in `.jpg`, `.jpeg`, `.png` or `.webp` |
| Gallery.ImageFilesConcat | src/routes/gallery/+page.server.ts:12-14 | filtering a concatenation filters each part and keeps the directory order |
| Gallery.LastDotBeforeExtension | src/routes/gallery/+page.server.ts:18 | in `stem.ext` with no dot in `ext`, the last dot is the one before `ext` |
| Gallery.LastDot | src/routes/gallery/+page.server.ts:18 | the position of a `.` with no `.` after it, or none when the name has no dot |
| Gallery.BaseName | src/routes/gallery/+page.server.ts:18 | the base name is a prefix of the file name |
| Gallery.BaseNameDropsExtension | src/routes/gallery/+page.server.ts:18 | `stem.ext` loses only its final `.ext`, whatever dots the stem holds |
| Gallery.DashesToSpaces | src/routes/gallery/+page.server.ts:20 | each `-` and `_` becomes a space and every other character is kept |
| Gallery.CapitalizeWordStarts | src/routes/gallery/+page.server.ts:21 | exactly the `\b\w` positions are upper-cased, and every other character is kept |
| Gallery.FormatTitle | src/routes/gallery/+page.server.ts:19-21 | a title has the base name's length and no `-` or `_`, and its word starts are upper-cased |
| Gallery.FormatTitleIdempotent | src/routes/gallery/+page.server.ts:19-21 | formatting a title again changes nothing |
| Gallery.Category | src/routes/gallery/+page.server.ts:45-62 | the categories in priority order: `panelist`, then `hackathon` or `winner`, then `speaker`, then `project` or `portfolio`, else `Gallery`, on the lower-cased name |
| Gallery.CategoryIgnoresCase | src/routes/gallery/+page.server.ts:46 | an upper-cased name lands in the same category |
| Gallery.GalleryItems | src/routes/gallery/+page.server.ts:8-42 | one item per image file in order, with id `image-k`, `src` and `thumbnail` both under `/portfolio-images/`, the formatted title and the category; a failed directory read gives no items |
| Gallery.ItemIdsDistinct | src/routes/gallery/+page.server.ts:24 | item ids are pairwise distinct |
| ProfilePage.ProfileName | src/routes/+page.server.ts:7 | an absent or empty `profile` parameter gives `default`; any other value is used as given |
| ProfilePage.StartDate | src/routes/+page.server.ts:37 | the start date is the text before the first `' - '`, or the whole duration without one |
| ProfilePage.EndDate | src/routes/+page.server.ts:38 | the end date is undefined exactly when the duration has no `' - '`; otherwise it is the text after the first separator up to the next one, with `Present` replaced by now |
| ProfilePage.DurationRoundTrip | src/routes/+page.server.ts:37-38 | `start - end` gives back `start` and `end`, with `Present` read as now |
| ProfilePage.OpenDuration | src/routes/+page.server.ts:37-38 | a duration without a separator is all start date and has no end date |
| ProfilePage.WorksFor | src/routes/+page.server.ts:33-39 | each organization copies its position's company and title |
| ProfilePage.StructuredData | src/routes/+page.server.ts:17-45 | the person copies name, title, email, phone, location and summary; `sameAs` is `[linkedin, github]`; there is one organization per position and one school per education entry, in order |
| ProfilePage.Load | src/routes/+page.server.ts:4-60 | on success the page holds the résumé, its structured data and the requested profile; on any failure both are null and the profile is `default`, whatever was requested |
| DataLoader.ResolveKey | js/utils/dataLoader.js:77-80 | a key that passes the truthiness test on `availableProfiles` is kept; any other key becomes `resume`, and the key used always passes the test |
| DataLoader.Initial | js/utils/dataLoader.js:7-36 | the constructor's state is consistent, with an empty cache and no data |
| DataLoader.LoadProfile | js/utils/dataLoader.js:74-132 | a cached key becomes current with its cached data and only `profileLoaded` is sent; otherwise `loadingStart` is sent, and on a good fetch the data is cached, made current and written to the URL (cleared for `resume`) before `profileLoaded`, while a failed fetch or a `null` document sends `loadingError` and leaves the state as it was; the observers never change |
| DataLoader.LoadKeepsConsistent | js/utils/dataLoader.js:83-109 | every load keeps the cache holding only accepted keys and non-null documents, with the current data equal to the current profile's cached entry |
| DataLoader.UnknownKeyLoadsMain | js/utils/dataLoader.js:77-80 | an unknown key behaves exactly like `resume`, before any cache lookup or fetch |
| DataLoader.SecondLoadHitsCache | js/utils/dataLoader.js:83-88 | after a successful load, the same request is served from the cache whatever the fetch would return: one `profileLoaded`, the same data, the same cache |
| DataLoader.Subscribe | js/utils/dataLoader.js:262-267 | the callback is appended to its event's list, duplicates included, and no other event changes |
| DataLoader.FirstIndex | js/utils/dataLoader.js:277 | `indexOf` finds the first position of the callback, or nothing when it is absent |
| DataLoader.RemoveFirst | js/utils/dataLoader.js:277-280 | an absent callback changes nothing; otherwise the first registration of the callback is cut out and the others stay in order, so the multiset loses exactly one copy |
| DataLoader.Unsubscribe | js/utils/dataLoader.js:274-282 | only the first registration on that event is removed, the rest keeping their order; other events, unknown events and unknown callbacks are left alone |
| DataLoader.RemoveEarliest | js/utils/dataLoader.js:277-280 | with a callback registered again later, only the earliest registration goes and the later one stays in place |
| DataLoader.SubscribeThenUnsubscribe | js/utils/dataLoader.js:262-282 | subscribing a new callback and unsubscribing it again restores every event's list |
| DataLoader.RemoveAppended | js/utils/dataLoader.js:277-280 | removing a callback appended to a list that lacked it gives the list back |
| DataLoader.Deliver | js/utils/dataLoader.js:291-297 | every callback is called in subscription order, and exactly the throwing ones are logged |
| DataLoader.Notify | js/utils/dataLoader.js:289-299 | the callbacks called are the event's list, none for an unknown event |
| DataLoader.ThrowingCallbacksDoNotStopOthers | js/utils/dataLoader.js:292-296 | which callbacks are called, and in what order, does not depend on which of them throw |
| DataLoader.KeepSlugClass | js/utils/dataLoader.js:450 | only word characters, white space and `-` survive; text made of them is kept whole; no upper-case letter appears; one character is kept exactly when it is in `[\w\s-]` |
| DataLoader.KeepSlugClassConcat | js/utils/dataLoader.js:450 | the removal goes character by character: the text kept from `a + b` is that of `a` followed by that of `b`, so with the one-character case the result is the in-order filter of the input |
| DataLoader.SpacesReplaced | js/utils/dataLoader.js:451 | after the white-space runs become `-`, only `[a-z0-9_-]` is left |
| DataLoader.DashesCollapsed | js/utils/dataLoader.js:452 | collapsing `-` runs keeps slug characters, leaves no `--` and keeps the first character |
| DataLoader.SingleDashesKept | js/utils/dataLoader.js:452 | text without `--` is unchanged by the collapse |
| DataLoader.Validate | js/utils/dataLoader.js:138-155 | the check fails exactly on a `null` document and otherwise passes the document through unchanged |
| DataLoader.Slug | js/utils/dataLoader.js:447-454 | a slug holds only `[a-z0-9_-]`, so no white space, and never `--` |
| DataLoader.SlugOfTwoWords | js/utils/dataLoader.js:447-454 | two `\w+` words separated by any white-space run become the lower-cased words joined by one `-` (`Hello World` gives `hello-world`) |
| DataLoader.LowerWordsKept | js/utils/dataLoader.js:449-450 | lower-cased words and the white space between them pass the character filter unchanged |
| DataLoader.SpaceRunReplaced | js/utils/dataLoader.js:451 | the white-space run between two words becomes exactly one `-` |
| DataLoader.DashJoinedKept | js/utils/dataLoader.js:452-453 | words joined by one `-` are unchanged by the `-+` collapse and the trim |
| DataLoader.SlugFixed | js/utils/dataLoader.js:447-454 | slug characters without `--` are their own slug |
| DataLoader.SlugIdempotent | js/utils/dataLoader.js:447-454 | applying `generateSlug` twice equals applying it once |
| ResumeText.Years | js/utils/dataLoader.js:418 | the four-digit groups found do not overlap, so there are at most a quarter as many as characters |
| ResumeText.YearsOfRange | js/utils/dataLoader.js:418 | `/\d{4}/g` over `YYYY<sep>YYYY` with a digit-free separator finds exactly the two years |
| ResumeText.YearsSkipText | js/utils/dataLoader.js:418 | digit-free text in front adds no year and hides none |
| ResumeText.YearsOfGroup | js/utils/dataLoader.js:414 | a four-digit group at the front is the first year found |
| ResumeText.YearsFromDuration | js/utils/dataLoader.js:411-424 | with `Present`, the current year minus the first four-digit year, and 0 when there is none or it is `0000`; otherwise the second year minus the first, or 1 with fewer than two years |
| ResumeText.ClosedRangeYears | js/components/experience.js:175-187 | `YYYY - YYYY` gives the difference of the two years |
| ResumeText.RevenueRuns | js/utils/dataLoader.js:432 | every `$…K` match is a non-empty run of `[0-9,]` |
| ResumeText.AmountValue | js/utils/dataLoader.js:435 | an amount is NaN exactly when it is made of commas alone |
| ResumeText.SumAmounts | js/utils/dataLoader.js:434-437 | a sum that is a number is never negative |
| ResumeText.SumAmountsNaN | js/utils/dataLoader.js:434-437 | the sum is NaN exactly when some match is commas alone |
| ResumeText.RevenueSum | js/utils/dataLoader.js:431-440 | no match gives 0, and a number is never negative |
| ResumeText.SumAmountsConcat | js/utils/dataLoader.js:434-437 | summing the matches of two lists adds their sums, NaN absorbing |
| ResumeText.NoDollarNoRevenue | js/utils/dataLoader.js:432 | text without `$` holds no amount |
| ResumeText.AmountAtFront | js/utils/dataLoader.js:432-435 | `$<amount>K` with any `[0-9,]+` amount, commas included, is read as that amount and the scan resumes after the `K`; a digit-only amount is worth its decimal value |
| ResumeText.RevenueRunsBeforeDollar | js/utils/dataLoader.js:432 | no match reaches past a `$`, so the matches of the text before a `$` and of the text from it concatenate, inside a word or not |
| ResumeText.AmountInText | js/utils/dataLoader.js:432 | an amount after `$`-free text (`(~$1,200K)`, `ARR:$500K`) is the first match |
| ResumeText.RevenueRunsSpaceJoin | js/components/experience.js:458-461 | no match spans a space, so joining texts with spaces concatenates their matches |
| ResumeText.PercentRuns | js/components/experience.js:474 | every `(\d+)%` match is a non-empty digit run; PercentRunsConcat, PercentAtFront and PercentFound say which runs are found, and in what order |
| ResumeText.PercentRunsConcat | js/components/experience.js:474 | no match spans the end of a text that ends outside a digit run, so the matches of `a + x` are those of `a`, then those of `x` |
| ResumeText.PercentRunsSpaceJoin | js/components/experience.js:458-474 | joining two texts with a space, as the achievements are joined, concatenates their matches |
| ResumeText.PercentFound | js/components/experience.js:474 | every `N%` that follows a text ending outside a digit run is found in its place, with exactly its digits |
| ResumeText.NoPercentSign | js/components/experience.js:474 | text without `%` holds no percentage |
| ResumeText.PercentAtFront | js/components/experience.js:474 | `N%` at the front is read as N and the scan resumes after the `%` |
| ResumeText.RoundedMean | js/components/experience.js:476-481 | `Math.round(sum / count)` is the nearest integer, halves rounded up |
| ResumeText.Uptime | js/components/experience.js:487 | `null` exactly when no position matches `(99\.9+)%`; otherwise the figure captured at the leftmost matching position, which is `99.` followed by `9`s and occurs in the text followed by `%` |
| ResumeText.UptimeAtFront | js/components/experience.js:487-491 | `99.9…9%` at the front is the uptime read |
| ResumeText.TeamOf | js/components/experience.js:497 | a found team size is a non-empty digit run |
| ResumeText.TeamOfLeftmost | js/components/experience.js:497 | `null` exactly when no position matches `team of (\d+)` (with or without the `i` flag); otherwise the whole digit run after the leftmost match's phrase |
| ResumeText.TeamAtFront | js/components/experience.js:497 | `team of N` at the front is read as N |
| ResumeText.IgnoreCaseIsLowerCase | js/components/experience.js:155 | matching with the `i` flag is matching the lower-cased text without it |
| ResumeText.SensitiveMatchFoundIgnoringCase | js/components/experience.js:155 | a case-sensitive match is also found with the `i` flag |
| Experience.AddMatchRevenue | js/components/experience.js:144-152 | one achievement adds 1000 times what `extractRevenueFromText` reads from it |
| Experience.AddAchievementRevenue | js/components/experience.js:144-152 | one position adds 1000 times the revenue of all its achievements |
| Experience.TotalYears | js/components/experience.js:138-142 | the summed years are not negative when no position's years are |
| Experience.ExperienceRevenue | js/components/experience.js:144-152 | the revenue is never negative, and one position's revenue is that of its achievements |
| Experience.ExperienceRevenueConcat | js/components/experience.js:138-152 | revenue adds up over consecutive groups of positions, NaN when either group gives NaN |
| Experience.PrefixStep | js/components/experience.js:138-159 | one more position adds its years and its revenue |
| Experience.CalculateStats | js/components/experience.js:132-167 | `totalYears` is the summed per-position years, `companies` the number of positions, `revenueImpact` 1000 times the sum of every amount; `teamSize` is the largest team named when some position names a team above 0, and 20 otherwise |
| Experience.LargestTeam | js/components/experience.js:155-158 | the team is at least every position's team and is one of them, and it is 0 exactly when no position names a team above 0 |
| Experience.RevenueMetric | js/components/experience.js:461-471 | a revenue metric appears exactly when a `$…K` match exists, with the sum followed by `K+` |
| Experience.AverageMetric | js/components/experience.js:474-484 | an average metric appears exactly when a `N%` exists, with the rounded mean followed by `%` |
| Experience.UptimeMetric | js/components/experience.js:487-494 | an uptime metric appears exactly when the uptime pattern matches, with the figure followed by `%` |
| Experience.TeamMetric | js/components/experience.js:497-504 | a team metric appears exactly when a case-sensitive `team of N` matches, with N as the value |
| Experience.MetricParts | js/components/experience.js:460-504 | four parts of at most one metric each hold each label exactly when that part is present, in emission order |
| Experience.ExtractImpactMetrics | js/components/experience.js:456-513 | between one and four metrics; each kind appears exactly when its pattern matches; the list is `Mission Success` alone exactly when nothing matches; the emission order is revenue, average, uptime, team; apart from the fallback, the list is exactly the revenue, average, uptime and team metrics of the joined text, with their values |
| Experience.JoinedRevenue | js/components/experience.js:458-465 | the revenue metric's total is the sum of what `extractRevenueFromText` reads from each achievement |
| Experience.JoinSnoc | js/components/experience.js:458 | joining one more part appends the separator and the part |
| Experience.CountVisible | js/components/experience.js:637-639 | the visible count never exceeds the number of items |
| Experience.TimelineProgress | js/components/experience.js:636-642 | the progress lies in [0, 100], is 0 with no item visible and 100 with all visible, and is visible/total × 100 |
| Experience.ProgressGrows | js/components/experience.js:636-642 | revealing one more item raises the progress |
| Experience.CountSet | js/components/experience.js:637-639 | marking a hidden item visible adds one to the count |
| Skills.KeepSkills | js/components/skills.js:254 | the kept values are exactly the strings with a non-white-space character, untrimmed |
| Skills.KeepSkillsConcat | js/components/skills.js:254 | filtering a concatenation filters each part and keeps their order |
| Skills.CollectValues | js/components/skills.js:245-251 | a value is collected exactly when some field is an array holding it or is that string; a single value gives an array's elements, a string itself, anything else nothing |
| Skills.CollectValuesConcat | js/components/skills.js:245-251 | the values are walked in order: those of `a + b` give the collection of `a`, then that of `b`, duplicates kept |
| Skills.FlattenSkills | js/components/skills.js:239-255 | `null` throws; an array keeps its non-blank strings; an object keeps the non-blank strings its array and string values hold; any other value gives `[]`; no result is blank; an array gives exactly its filtered elements, and an object the filtered collection of its values in key order |
| Skills.FlattenFieldsConcat | js/components/skills.js:244-254 | an object flattens key by key: the skills of fields `a + b` are those of `a`, then those of `b`, duplicates included |
| Skills.TotalSkillCount | js/components/skills.js:298-305 | a `null` tree throws; otherwise the count is the flattened lengths summed over the categories, or the first category's error |
| Skills.CountCategories | js/components/skills.js:300-303 | the loop over the categories gives the reference count: flattened lengths summed, or the first error |
| Skills.CountAllErrIff | js/components/skills.js:300-303 | the count fails exactly when some category is `null` |
| Skills.CountAllStep | js/components/skills.js:301-302 | one more category adds its flattened length, or fails with its error |
| Skills.CountAllError | js/components/skills.js:300-303 | once a prefix fails, the whole count fails with the same error |
| Skills.RelatedSymmetric | js/components/skills.js:361-363 | `areSkillsRelated` is symmetric |
| Skills.RelatedToItself | js/components/skills.js:355-363 | a skill is related to itself exactly when some listed pair names it |
| Skills.RelatedDistinct | js/components/skills.js:355-363 | two different skills are related exactly when they form a listed pair, in either order |
| Skills.SharedPair | js/components/skills.js:361-362 | a pair that includes two different skills is those two, in one order or the other |
| Skills.SpaceBeforeCapitals | js/components/skills.js:673 | every capital is preceded by a space, and the text only grows |
| Skills.SpaceBeforeCapitalsUnspaced | js/components/skills.js:673 | only spaces are inserted: without spaces the text is unchanged |
| Skills.TrimKeepsSpacing | js/components/skills.js:673 | trimming keeps a space before each inner capital and leaves no white space at the ends |
| Skills.SpacedName | js/components/skills.js:673 | an unknown key's display name has a space before each inner capital and no white space at the ends |
| Skills.FormatCategoryName | js/components/skills.js:663-674 | the six known keys give their fixed labels; an inherited name gives a function, not a string; any other key is spaced before capitals and trimmed |
| Skills.KnownTrimmed | js/components/skills.js:664-671 | the fixed labels neither start nor end with white space |
| Skills.CamelCaseKey | js/components/skills.js:673 | a lower-camel-case key is spaced before its capitals, and dropping the spaces gives the key back |
| Skills.SpacedNameUntrimmed | js/components/skills.js:673 | a key without white space at its ends and no leading capital needs no trimming |
| Skills.RowFrom | js/components/skills.js:319-344 | the inner loop draws exactly the lines from `a` to later linked nodes, in increasing order |
| Skills.ConnectionsFrom | js/components/skills.js:318-345 | the outer loop draws exactly the lines whose first node is at or after `a`, in `(indexA, indexB)` order |
| Skills.Connections | js/components/skills.js:318-345 | a line is drawn exactly for `indexA < indexB` with related skills or one category, with opacity 0.6 within a category and 0.3 otherwise, and no pair twice |
| Skills.EveryLinkedPairDrawn | js/components/skills.js:320-342 | every linked pair appears with its opacity |
| AiShowcase.SpaceEnd | js/components/aiShowcase.js:169 | `\s*` taken greedily from `p` stops at the first character that is not white space |
| AiShowcase.SearchQ | js/components/aiShowcase.js:169 | backtracking `\s*` settles on the longest position from which `(.+)` can start |
| AiShowcase.SpaceRunBound | js/components/aiShowcase.js:169 | `\s*` cannot end past the white-space run |
| AiShowcase.TryP | js/components/aiShowcase.js:169 | after `%?`, the best end of `\s*` that lets `(.+)` start, or none |
| AiShowcase.TryD | js/components/aiShowcase.js:169 | `%?` is taken when that leads to a match, else skipped; the result is the engine's preferred tail, or none exists |
| AiShowcase.SearchD | js/components/aiShowcase.js:169 | `\d+` gives back digits one at a time until the rest matches, and the result is the preferred way |
| AiShowcase.MatchAt | js/components/aiShowcase.js:169 | at one start, the preferred match when any exists |
| AiShowcase.SearchFrom | js/components/aiShowcase.js:169 | the leftmost start with a match, and the preferred match there |
| AiShowcase.LineEnd | js/components/aiShowcase.js:169 | `(.+)` runs to the first line terminator or the end |
| AiShowcase.MetricMatch | js/components/aiShowcase.js:169 | no match exactly when no way to match exists anywhere; otherwise the digits are those of the leftmost start that matches, taken the way the engine prefers there (longest `\d+`, then `%` taken, then longest `\s*`), and the label runs from there to the end of the line |
| AiShowcase.MetricCard | js/components/aiShowcase.js:169-177 | a card exactly when the expression matches; its value is the captured digits read in decimal, its label the captured label, it carries the initiative's name, and its unit is `%` exactly when the metric contains `%` anywhere |
| AiShowcase.CardsOf | js/components/aiShowcase.js:168-178 | at most one card per metric, each named after the initiative; no card when no metric matches; one metric gives its own card or none |
| AiShowcase.CardOrNone | js/components/aiShowcase.js:169-177 | one metric gives no card exactly when the expression does not match, and otherwise its `MetricCard` |
| AiShowcase.CardsOfAllMatch | js/components/aiShowcase.js:168-178 | when every metric matches, card `k` is metric `k`'s card |
| AiShowcase.CardsOfConcat | js/components/aiShowcase.js:168-178 | the cards of `a + b` are the cards of `a`, then those of `b`, so cards keep the metrics' order |
| AiShowcase.OwnCards | js/components/aiShowcase.js:167-179 | an initiative without `metrics` adds nothing; its cards are named after it |
| AiShowcase.InitiativeCards | js/components/aiShowcase.js:165-181 | each card is named after one of the initiatives, and a single initiative gives its own cards |
| AiShowcase.InitiativeCardsConcat | js/components/aiShowcase.js:166-180 | the cards of a concatenation are each part's cards, in initiative order |
| AiShowcase.InitiativeCardsPush | js/components/aiShowcase.js:166-180 | each further initiative appends its own cards after those of the ones before it |
| AiShowcase.ImpactCards | js/components/aiShowcase.js:184-198 | one `%` card per `N%` of the impact text, worth N, in `Overall Impact`, labelled `time-to-merge reduction`, `build failure decrease`, then `improvement` |
| AiShowcase.AllCards | js/components/aiShowcase.js:164-198 | the initiative cards, or none without initiatives, followed by the impact cards; no initiative card is in `Overall Impact` unless an initiative has that name |
| AiShowcase.FrontMatch | js/components/aiShowcase.js:169 | in `N% text`, the match starts at the front and takes all of N, the `%` and one space |
| AiShowcase.SearchFront | js/components/aiShowcase.js:169 | a text that starts with digits, `% ` and a label is matched at the front |
| AiShowcase.PinMatch | js/components/aiShowcase.js:169 | no way at that start is preferred to the one through `%` and a single space |
| AiShowcase.FrontCaptures | js/components/aiShowcase.js:169 | the captures of `N% text` are N and the text |
| AiShowcase.NoTerminatorLineEnd | js/components/aiShowcase.js:169 | with no line terminator, `(.+)` runs to the end |
| AiShowcase.PercentMetric | js/components/aiShowcase.js:169-176 | `N% text` gives a `%` card worth N, captioned with the text |
| AiShowcase.NoDigitNoCard | js/components/aiShowcase.js:169-170 | a metric without digits gives no card |
| Hero.Initial | js/components/hero.js:15-21 | the rotation starts on the first of four titles |
| Hero.UpdateTitle | js/components/hero.js:93-102 | without a title element, or with an empty or missing profile title, nothing changes; otherwise the title is in the list afterwards, put in front only when it was not there; the index is kept and the rotation stays valid |
| Hero.UpdateTitleOnce | js/components/hero.js:97-99 | offering the same title twice adds it at most once |
| Hero.Advance | js/components/hero.js:137 | the index moves to the next title and wraps to 0 after the last, staying in bounds |
| Hero.AdvanceN | js/components/hero.js:448 | any number of advances keeps the rotation valid and the titles unchanged |
| Hero.AdvanceNIndex | js/components/hero.js:137 | within one round, n advances move the index n places modulo the length |
| Hero.FullCycle | js/components/hero.js:137 | one advance per title brings the rotation back to where it started |
| Hero.Shorten | js/components/hero.js:480 | a title over 25 characters becomes its first 22 plus `...`, exactly 25; a shorter one is kept |
| Hero.ShortenIdempotent | js/components/hero.js:480 | shortening a shortened title changes nothing |
| Hero.HandleResize | js/components/hero.js:476-483 | below 768 pixels every title is shortened in place; at 768 or more nothing changes; the index and the count stay |
| Hero.ResizeIdempotent | js/components/hero.js:478-482 | after a narrow resize every title fits in 25 characters, and a second resize changes nothing |
| Hero.Step | js/components/hero.js:93-102 | every event keeps the rotation valid and never shrinks the list |
| Hero.Run | js/components/hero.js:479-481 | any run of events keeps the rotation valid and never shrinks the list |
| Hero.RunFromStart | js/components/hero.js:16-21 | from the start, the list is never empty and keeps at least four titles |
| Hero.ActionButtons | js/components/hero.js:164-194 | the AI button exactly when an AI product is present, the contact button exactly when the email is non-empty, the download button always and last, in that order |
| Hero.UnderscoredNoSpace | js/components/hero.js:322 | replacing white-space runs with `_` leaves no white space |
| Hero.DownloadFilename | js/components/hero.js:319-337 | the name with its white-space runs replaced by `_`, then `_Resume.json`, `_Resume.yaml` or `_Resume.txt`; any other format leaves the name empty |
| Hero.FilenameNoSpace | js/components/hero.js:322-334 | the file name never holds white space |
| Hero.DropWholeRun | js/components/hero.js:322 | a white-space run is consumed whole |
| Hero.UnderscoreJoins | js/components/hero.js:322 | a run of white space between words becomes one `_`, and the words are kept |
| Hero.TwoWordFilename | js/components/hero.js:322-334 | `First Last` becomes `First_Last_Resume.<ext>` |
| Hero.UnlinesAppend | js/components/hero.js:362-384 | the text of two line lists is the text of each, one after the other |
| Hero.FirstNewline | js/components/hero.js:362-384 | the first newline after a line is the one that ends it |
| Hero.SplitUnlines | js/components/hero.js:362-384 | splitting the summary on newlines gives back its lines and a final empty one |
| Hero.PositionLines | js/components/hero.js:374-378 | one entry is its header, at most three bullets for its first achievements, and a blank line |
| Hero.ExperienceLines | js/components/hero.js:373-379 | at most five lines per entry |
| Hero.ExperienceLinesAt | js/components/hero.js:373-379 | the k-th entry's block sits between the earlier and the later entries' lines |
| Hero.HeaderLines | js/components/hero.js:362-372 | eleven lines: name, title, location, `email \| phone`, the LinkedIn and GitHub lines, a blank, `SUMMARY`, the summary, a blank and `EXPERIENCE` |
| Hero.EducationLines | js/components/hero.js:382-384 | one `degree \| institution (duration)` line per education entry, in order |
| Hero.SummaryLines | js/components/hero.js:359-387 | the summary has at most 12 lines plus five per position plus one per education entry |
| Hero.TextSummary | js/components/hero.js:359-387 | the text opens with the name and a newline, and when no line holds a newline, splitting it on newlines gives back the lines and a final empty one |
| Hero.SummaryParts | js/components/hero.js:359-387 | the summary is the header, the experience lines, then `EDUCATION` and the education lines |
| Hero.PositionInSummary | js/components/hero.js:373-379 | the k-th position appears right after the header and the earlier positions, with at most its first three achievements |
| Hero.EducationClosesSummary | js/components/hero.js:381-384 | the education lines end the summary, right after the `EDUCATION` heading |
| Contact.ChannelsFor | js/components/contact.js:80-122 | exactly four channels, email, LinkedIn, GitHub and location in that order, with the email and the location as their values |
| Contact.Render | js/components/contact.js:37-134 | without personal information nothing changes; otherwise the four channels are appended to those already collected |
| Contact.Update | js/components/contact.js:874-878 | after an update the collected channels are exactly those of the new data, or none |
| Contact.UpdateNeverAccumulates | js/components/contact.js:874-878 | however many updates, at most four channels are held, and they are the last data's channels |
| Contact.RenderTwiceDuplicates | js/components/contact.js:127-131 | rendering twice without the clearing step lists every channel twice |
| Contact.RemoveEmoji | js/components/contact.js:387 | every listed emoji is removed and every other character kept |
| Contact.RemoveEmojiKeeps | js/components/contact.js:387 | text without the listed emoji is unchanged |
| Contact.RemoveEmojiConcat | js/components/contact.js:387 | removal works part by part over a concatenation |
| Contact.TrimmedUnchanged | js/components/contact.js:387 | text without white space at its ends is its own trim |
| Contact.Subject | js/components/contact.js:387 | the subject line is a trimmed front without the listed emoji, then ` - Message from ` and the name |
| Contact.TrimCleans | js/components/contact.js:387 | `trim` leaves text that neither starts nor ends with white space, and adds no emoji |
| Contact.PlainSubject | js/components/contact.js:387 | a trimmed subject without emoji gives `subject - Message from name` |
| Contact.MenuSubjects | js/components/contact.js:387 | each of the six menu values gives `value - Message from name` |
| Contact.LowerWordPlain | js/components/contact.js:238-243 | the menu values carry no emoji and need no trimming |
| Contact.LabelSubject | js/components/contact.js:387 | an emoji, a space and a label come out as the label alone |
| Contact.LeadingSpaceTrimmed | js/components/contact.js:387 | the space left in front of a label is trimmed away |
| Contact.CalculateContactStats | js/components/contact.js:578-590 | 500 connections and 50 projects; the number of positions, or 5 without an experience list |
| Contact.EmptyExperienceCountsZero | js/components/contact.js:582 | an empty experience list counts 0 companies; only a missing one gives 5 |
| Contact.CounterColour | js/components/contact.js:300-302 | the warning colour exactly above 900 characters, the normal one otherwise |
| Contact.WarningPersists | js/components/contact.js:302 | once a length warns, every longer one warns too |
| Contact.Click | js/components/contact.js:818-824 | a click raises the counter; on reaching 5 the easter egg fires and the counter restarts at 0 |
| Contact.Clicks | js/components/contact.js:817-824 | the counter stays in 0..4 and the firings never decrease |
| Contact.ClicksFromStart | js/components/contact.js:817-824 | after n clicks the counter is n mod 5 and the egg has fired n div 5 times |
| Navigation.NavigateTo | js/main.js:137-155 | a missing element changes nothing; otherwise the fragment becomes `#id` and the section current |
| Navigation.SectionIndex | js/main.js:309 | the position in the section list, or -1 exactly when the section is not listed |
| Navigation.KeyTarget | js/main.js:308-337 | ArrowDown/PageDown targets the next section, `home` from outside the list, and nothing at `contact`; ArrowUp/PageUp targets the previous section, and nothing at `home` or outside the list; Home targets `home`, End targets `contact`, other keys nothing |
| Navigation.HandleKey | js/main.js:305-338 | before initialisation nothing happens; the default is prevented exactly when the key has a target; the section changes only to a listed section whose element exists |
| Navigation.DownThenUp | js/main.js:312-326 | ArrowDown then ArrowUp returns to the starting section, except from `contact` |
| Navigation.UpThenDown | js/main.js:312-326 | ArrowUp then ArrowDown returns to the starting section, except from `home` |
| Navigation.DownReachesLast | js/main.js:312-318 | enough ArrowDown presses reach `contact`, and further presses stay there |
| Navigation.FirstCovering | js/main.js:183-190 | the first box that holds the position, or none when no box does |
| Navigation.CurrentSection | js/main.js:179-193 | the id of the first section whose box holds the scroll position plus 100, and `home` when none does |
| Navigation.LaidOutSections | js/main.js:179-193 | with sections that do not overlap, the section reported is the one the position falls in |
| ConfigUtils.HexRun | js/config.js:432 | `parseInt` in base 16 reads the longest run of hexadecimal digits |
| ConfigUtils.Magnitude | js/config.js:432 | without a `0x` prefix the longest decimal digit run is read, and no digit at all is NaN |
| ConfigUtils.ParseInt | js/config.js:432 | white space alone, or nothing, is NaN |
| ConfigUtils.ParseIntPrefix | js/config.js:435 | digits followed by a non-digit are read up to that character |
| ConfigUtils.ParseUnsigned | js/config.js:435 | text that starts with a digit is read as its magnitude |
| ConfigUtils.DigitsMagnitude | js/config.js:435 | the magnitude of digits followed by a non-digit is their decimal value |
| ConfigUtils.ParseDecimal | js/config.js:432 | `parseInt` reads back the decimal text of a natural number |
| ConfigUtils.YearWord | js/config.js:433 | `year` exactly for a count of 1, `years` otherwise, NaN included |
| ConfigUtils.RenderedCount | js/config.js:436 | the text is `start - end (n year)` for n = 1 and `(n years)` otherwise |
| ConfigUtils.FormatDuration | js/config.js:430-437 | the text opens with the start, ` - `, the end (`Present` when missing) and ` (`, and an unreadable start prints `NaN years` |
| ConfigUtils.ClosedDuration | js/config.js:435-436 | two readable years give their difference, singular exactly for one year |
| ConfigUtils.ClosedSpan | js/config.js:435-436 | the span is the end year minus the start year |
| ConfigUtils.OpenDuration | js/config.js:430-433 | a missing end is `Present`, and the span runs to the current year |
| ConfigUtils.WrittenYears | js/config.js:430-437 | years written in digits give their difference |
| ConfigUtils.DecimalIsNotPresent | js/config.js:431 | no year written in digits is taken for `Present` |
| ConfigUtils.RenderedNaN | js/config.js:436 | an unreadable count prints as `NaN years` |
| ConfigUtils.UnreadableStart | js/config.js:432-436 | an unreadable start year prints `NaN years` |
| ConfigUtils.UnreadableEnd | js/config.js:435-436 | an unreadable end year other than `Present` prints `NaN years` |
| ConfigUtils.Copy | js/config.js:471 | `Object.assign({}, target)` copies an object's fields and nothing of a number, boolean or null |
| ConfigUtils.HasProperty | js/config.js:475 | `key in target` throws on `null`, and on an object holds for its own keys and the inherited names |
| ConfigUtils.Get | js/config.js:478 | an own key gives its value |
| ConfigUtils.EntryKeys | js/config.js:473 | one key per field or per array element |
| ConfigUtils.DecimalInjective | js/config.js:473 | array indices are written as distinct keys |
| ConfigUtils.EntryKeysUnique | js/config.js:473 | the keys of a source are distinct |
| ConfigUtils.Put | js/config.js:476-481 | a store either replaces a value in place or adds the key at the end |
| ConfigUtils.PutKeys | js/config.js:476-481 | storing keeps the existing keys in order and appends a new key |
| ConfigUtils.PutLookup | js/config.js:476-481 | after storing, the key holds the value and every other key is unchanged |
| ConfigUtils.StoreValue | js/config.js:474-482 | a value that is not a non-array object (or `null`) is copied; for an object, `key in null` throws; StoreValueCases states the other object cases |
| ConfigUtils.StoreValueCases | js/config.js:475-479 | an object for a key not `in` the target is copied; for a key the target holds as an own value it is `deepMerge(target[key], source[key])`; over an inherited method it becomes `{}` |
| ConfigUtils.Entries | js/config.js:473-483 | one entry per source key, in `Object.keys` order, with what is stored for it |
| ConfigUtils.DeepMerge | js/config.js:470-486 | the result is always an object; when either side is not of type `'object'` it is the copy of the target; a `null` source throws |
| ConfigUtils.StoreAllFails | js/config.js:473-483 | the loop fails exactly when some entry fails |
| ConfigUtils.StoreAllExtends | js/config.js:473-483 | the loop only adds keys after the existing ones |
| ConfigUtils.StoreAllKeeps | js/config.js:473-483 | a key that no entry names keeps its value |
| ConfigUtils.StoreAllStores | js/config.js:473-483 | every entry's key ends up holding its value |
| ConfigUtils.DeepMergeFails | js/config.js:472-483 | with two objects, the merge fails exactly when some key's value fails |
| ConfigUtils.EntriesFail | js/config.js:473-483 | some entry fails exactly when some key's value fails |
| ConfigUtils.DeepMergeKeepsTarget | js/config.js:471-485 | the target's keys come first and in order, and a key the source does not name keeps the target's value |
| ConfigUtils.DeepMergeStores | js/config.js:474-482 | each source key holds what is stored for it: the source value itself when it is not an object or the key is not `in` the target, and `deepMerge(target[key], source[key])` when the target has the key as an own value |
| ConfigUtils.GetNullFree | js/config.js:478 | reading a `null`-free tree gives a `null`-free value |
| ConfigUtils.NullFreeMerges | js/config.js:470-486 | merging two `null`-free trees never throws |
| ConfigUtils.NullFreeEntry | js/config.js:474-482 | every entry of a `null`-free merge succeeds |
| ConfigUtils.NullFreeStore | js/config.js:474-482 | storing a `null`-free value succeeds |
| ConfigUtils.ObjectOverScalar | js/config.js:471-478 | an object merged over a number under the same key becomes `{}` |
| ConfigUtils.InheritedKeyLosesObject | js/config.js:475-478 | an object stored under an inherited name such as `constructor` is merged into the inherited function and becomes `{}` |
| ConfigUtils.ValidateEmail | js/config.js:498-500 | an accepted address has at least five characters and a non-empty part before its first `@` |
| ConfigUtils.ValidateEmailMatches | js/config.js:498-500 | `validateEmail` accepts exactly the texts of the pattern's shape: plain local part, `@`, plain host, `.`, plain rest, with no white space and one `@` |
| ConfigUtils.ShapeValidates | js/config.js:498-500 | a text of the pattern's shape is accepted |
| ConfigUtils.SiteAddressValid | js/config.js:498-500 | the site's own address, `JatinderBhola@gmail.com`, is accepted |
| ConfigUtils.LettersShape | js/config.js:499 | `local@host.tld` made of letters has the pattern's shape |
| ConfigUtils.SecondAtRefused | js/config.js:499 | an address with two `@` is refused |
| ConfigUtils.NoInnerDotRefused | js/config.js:499 | `a@b`, `a@b.` and `a@.b` are refused |
| JsText.TrimEmptyIff | js/components/skills.js:254 | `s.trim()` is empty, so falsy, exactly when every character is white space |
| JsText.IndexOf | src/routes/+page.server.ts:37-38 | the first occurrence at or after the start position, or none |
| JsText.ContainsIffIndexOf | src/routes/gallery/+page.server.ts:48-61 | `includes` holds exactly when `indexOf` finds an occurrence |
| JsText.Split | src/lib/i18n/utils.ts:41 | `split` gives at least one part, and no part holds the separator |
| JsText.JoinSplit | src/lib/i18n/utils.ts:41 | joining the parts with the separator gives the text back |

Values are immutable in Dafny, so `deepMerge` leaving its target untouched holds by construction: the
model returns a new tree and the target stays as it was.

## Left out

- Case mapping: `toLowerCase`, `toUpperCase` and the `i` regular-expression flag are modelled for ASCII
  letters only. Other characters are left unchanged, because full Unicode case tables are out of scope.
- Strings are sequences of characters, not UTF-16 code units. A `length` or `substring` that splits a
  surrogate pair, as in `Hero.Shorten` or `Avatar.FirstChars` on an emoji, is not modelled.
- JSON numbers are integers. Fractions, `Infinity` and `-0` are not modelled, because the code only
  stores years, counts and amounts.
- I18n.InheritedText: ECMAScript leaves the exact text of a built-in function to the engine. The model
  uses the `function name() { [native code] }` form the major engines print.
- `parseInt` is exact: the loss of precision above 2^53 is not modelled.
- Floating point: the per-position years are integers, so `Math.floor` of their sum changes nothing.
  `Experience.TimelineProgress` is computed over the reals, without float rounding.
- ConfigUtils.FormatDuration: a numeric `start` (rather than a string) and an explicit `null` end are
  not modelled. An absent end takes the `Present` default.
- ConfigUtils.Magnitude: the contract states only the decimal case. The `0x` branch of `parseInt` is in
  the body, but no lemma states it, because no date the site writes starts with `0x`.
- ConfigUtils.WellFormed: `__proto__` keys are excluded, because assigning them replaces an object's
  prototype instead of storing a value.
- Integer-like keys, which JavaScript enumerates before the other keys whatever their insertion order,
  are not reordered: fields keep their written order.
- ConfigUtils.DeepMerge: `null` under a key the target has throws (`key in null`). The model gives an
  error result, and `NullFreeMerges` shows that merging `null`-free trees always succeeds. The source
  reads each key's value while it loops; the model computes the values first (`Entries`), which gives
  the same result because reading does not change the tree.
- DOM, timers and graphics: templates, event wiring, modals, IntersectionObserver and CSS transitions,
  the Three.js scene, the hero typing loop, `throttle` and `debounce`, and every geometry computation are
  not modelled. Only the state they update is.
- I/O and platform calls become parameters: `fetch` (a result per URL), `readdir` (a directory
  listing or an error), `localStorage` and `navigator.language`, the current year and the ISO timestamp,
  `encodeURIComponent` (a function parameter), the random colour draw, `window.innerWidth`, `scrollY`
  and section boxes (integers), and whether a document element exists.
- `preloadProfiles` (`Promise.allSettled`), `init`, the popstate listener and `setupProfileSelector`
  involve concurrency and DOM wiring, so they are not modelled.
- DataLoader.Validate: `validateProfileData` only logs warnings, except that it throws on a `null`
  document. Only that throw is modelled.
- `getProfileStats` is modelled only through the years and revenue scanners it shares with the
  experience view.
- `updatePageMetadata`, `exportProfile`, `jsonToYaml` and `JSON.stringify` are not modelled, because
  they only format output.
- `formatFileSize` (logarithms), `formatDate` and `formatNumber` (Intl), and `generateId` (randomness)
  are not modelled.
- Avatar.BackgroundColor: the random value itself is a parameter. Only the range `Math.floor` gives it
  is required.
- Hero.SummaryLines: the contract bounds only the number of lines. `SummaryParts` and
  `Hero.HeaderLines` state the lines themselves.
- Navigation.HandleKey: the smooth scroll and the active-item highlighting are not modelled. Only the
  URL fragment and the current section are.
- Static content (design examples, principles, interview patterns, the configuration object), the
  framework plumbing and the Svelte component tests are not modelled.
