# Site-blocking extension: a Dafny model of its core

This project models the core of a browser extension that blocks web sites.
The user keeps three lists:

- permanent block sites;
- scheduled block sites, each with a daily time window;
- incognito block sites.

The user also keeps "focus groups": named allow-lists of URL patterns, at most one of which is focusing at a time.

Every time a tab is highlighted or finishes navigating, the background worker decides whether to redirect the tab to the blocked page.

The model covers:

- **URL patterns** (`UrlMatcher`, `JsRegex`). `isMatch` turns a pattern into a JavaScript regular expression:
  - it escapes every syntax character except `*`;
  - it rewrites the first `*` only to `.*`;
  - it anchors the result with `^…$`.

  `JsRegex` gives the tokeniser, the quantifier grouping and the full-match semantics of the small regular-expression subset that can result. A later `*` repeats the atom before it, and `**` is the "nothing to repeat" SyntaxError. The module also covers `getURLFromPattern`, `getPatternType` and `generateUrlPattern`. URL parsing (`new URL`) is a parameter.
- **Storage** (`Storage`). `BlockScheduler.isValidUrl` and `shouldBlock` are modelled. Every `StorageHandler` method is a pure function from the stored lists to the new lists or to the error it throws.
- **Background decisions** (`Background`):
  - `handleBlockSite`, `handleFocusMode` and `handleincognitoBlock`;
  - the listener that runs all three behind the `https://` gate.

  The outcome counts the redirects and records an uncaught exception (a pattern `new RegExp` rejects).
- **DOM helpers** (`Dom`):
  - the `html` and `css` template tags;
  - `CSSVariablesManager.formatName`;
  - `LocalStorageBrowser.getKey`;
  - `DateModel.convertTimeToDate`, `convertDateToTime` and `militaryToStandardTime`.

  Times of day are `ClockTime(hour, minute)` values. `parseInt` and the `Date` roll-over of `setHours`/`setMinutes` are written out.
- **ObjectSet** (`ObjectSets`). A set keyed by `JSON.stringify` is modelled as the insertion-ordered list of keys. The serialiser and the parser are parameters.
- **Options page handlers** (`Options`): the three add handlers, both as written and corrected (see Findings).

`Text`, `Seqs` and `Wrappers` hold the string, sequence and result helpers the other modules share.

Where the prose design and the code disagree, the model follows the code:

- `getPatternType` returns `matchQuery` for a pattern that has a `?` and ends in `*` but not in `/*`. The path test (line 34) rejects any pattern holding a `?`, and the star-free test (line 35) fails, so the query test (line 36) returns it.
- `shouldBlock` tests a same-day window: `start <= now < end` means "do not block". A window that crosses midnight therefore blocks all day. `OvernightWindowBlocks` shows one.

## Model

| member | source | states |
|---|---|---|
| UrlMatcher.GetUrlFromPattern | src/options/URLMatcherModel.ts:15-17 | only the first `*` is removed: a star-free pattern is unchanged, otherwise the text around the first star is kept and exactly one star disappears |
| UrlMatcher.IsMatch | src/options/URLMatcherModel.ts:19-30 | `isMatch` itself: compile the rewritten pattern, throw its SyntaxError, otherwise test the whole URL; it has no contract of its own, and its meaning is stated by `UrlMatcher.IsMatchStarFree`, `UrlMatcher.IsMatchOneStar`, `UrlMatcher.SingleStarMatches` and `UrlMatcher.IsMatchFailsIff` |
| UrlMatcher.Escape | src/options/URLMatcherModel.ts:21 | the escaping `replace` with the global flag: never shorter than the pattern; `UrlMatcher.EscapeConcat` states that it works character by character, `UrlMatcher.EscapeStarFree` that it adds no `*`, and `UrlMatcher.TokenizeEscaped` that every escaped character reads back as the literal |
| UrlMatcher.RegexSource | src/options/URLMatcherModel.ts:21 | the source between `^` and `$`; no contract of its own, stated by `UrlMatcher.RegexSourceOneStar` and `UrlMatcher.TokenizeRegexSource` |
| JsRegex.Tokenize | src/options/URLMatcherModel.ts:20-22 | how `new RegExp` reads the source; no contract of its own, stated by `UrlMatcher.TokenizeRegexSource`: every escaped character is a literal, `.` is any character, `*` a quantifier |
| JsRegex.Group | src/options/URLMatcherModel.ts:20-22 | attaches each quantifier to its atom; no contract of its own, stated by `UrlMatcher.GroupFailsIff` (the SyntaxError case) and `UrlMatcher.GroupLiteralsThen` |
| JsRegex.Compile | src/options/URLMatcherModel.ts:20-22 | `new RegExp` on the source; no contract of its own, stated by `UrlMatcher.CompileStarFree` and `UrlMatcher.CompileOneStar` |
| JsRegex.FullMatch | src/options/URLMatcherModel.ts:29 | `regex.test` of an expression anchored at both ends; no contract of its own, stated by `JsRegex.LiteralsThen`, `JsRegex.LiteralsExactly` and `JsRegex.AnyThenLiterals` |
| UrlMatcher.RegexSourceOneStar | src/options/URLMatcherModel.ts:20-22 | only the first `*` becomes `.*`; the text on both sides is escaped |
| UrlMatcher.EscapedAreSyntaxCharacters | src/options/URLMatcherModel.ts:20-22 | the characters escaped are exactly the regular-expression syntax characters other than `*` |
| UrlMatcher.IsMatchStarFree | src/options/URLMatcherModel.ts:19-30 | a pattern without `*` matches exactly the URL equal to it: escaping makes every character literal |
| UrlMatcher.IsMatchOneStar | src/options/URLMatcherModel.ts:19-30 | a pattern `before*after` matches exactly the URLs that start with `before`, end with `after` (not overlapping), and hold no line terminator in between |
| UrlMatcher.IsMatchFailsIff | src/options/URLMatcherModel.ts:19-30 | `isMatch` throws exactly when the pattern holds `**`, and it throws "nothing to repeat" |
| UrlMatcher.GetPatternType | src/options/URLMatcherModel.ts:32-38 | the four pattern kinds, each as an if-and-only-if over the pattern's ending, its `*` and its `?` |
| UrlMatcher.SelectedMode | src/options/URLMatcherModel.ts:40-77 | when several flags are set, exact wins over query, query over domain, domain over path; no flag selects nothing |
| UrlMatcher.GenerateUrlPattern | src/options/URLMatcherModel.ts:40-77 | no pattern iff the URL does not parse or no flag is set; otherwise the URL itself, or a template built on `protocol//hostname` (no port, unlike `origin`): that plus path plus query, that plus `/*`, or that plus path plus `*` |
| UrlMatcher.DomainPattern | src/options/URLMatcherModel.ts:62-64 | the domain template; no contract of its own, stated by `UrlMatcher.DomainPatternMatches` |
| UrlMatcher.PathPattern | src/options/URLMatcherModel.ts:66-68 | the path template; no contract of its own, stated by `UrlMatcher.PathPatternMatches` |
| UrlMatcher.QueryPattern | src/options/URLMatcherModel.ts:58-60 | the query template; no contract of its own, stated by `UrlMatcher.QueryPatternIsExact` and `UrlMatcher.QueryPatternOneStar` |
| UrlMatcher.DomainPatternMatches | src/options/URLMatcherModel.ts:40-77 | a domain pattern is classified as a domain pattern and matches exactly the URLs under `protocol//host/` |
| UrlMatcher.PathPatternMatches | src/options/URLMatcherModel.ts:40-77 | a path pattern matches exactly the URLs extending `protocol//host/path`; its type is domain when the path ends in `/`; for the root path it equals the domain pattern |
| UrlMatcher.QueryPatternIsExact | src/options/URLMatcherModel.ts:40-77 | a query pattern built from a URL without `*` is classified as exact and matches only itself |
| UrlMatcher.QueryPatternOneStar | src/options/URLMatcherModel.ts:32-77 | a query pattern built from a URL whose path or query keeps one `*` is a wildcard: with a `?` in the query it is classified as a query pattern (domain when it ends in `/*`), and it matches exactly the URLs around its star |
| UrlMatcher.SingleStarMatches | src/options/URLMatcherModel.ts:19-30 | any pattern holding exactly one `*` matches exactly the URLs that start with the text before it and end with the text after it, with no line terminator between |
| UrlMatcher.StarAndQueryType | src/options/URLMatcherModel.ts:32-38 | a pattern with a `*` and a `?` is a query pattern unless it ends in `/*` |
| UrlMatcher.ExactPatternMatchesItself | src/options/URLMatcherModel.ts:40-77 | an exact-mode pattern is the URL itself and matches it, provided it holds at most one `*` |
| UrlMatcher.GroupFailsIff | src/options/URLMatcherModel.ts:19-30 | grouping the tokens of the regular expression fails exactly when a quantifier has no atom before it |
| JsRegex.LiteralsThen | src/options/URLMatcherModel.ts:19-30 | a literal prefix in the expression consumes exactly that prefix of the input |
| JsRegex.AnyThenLiterals | src/options/URLMatcherModel.ts:19-30 | `.*` followed by literals matches exactly the inputs that end in those literals after a run free of line terminators |
| Storage.IsValidUrl | src/background/controllers/storage.ts:32-34 | a URL is valid exactly when it starts with `https://` |
| Storage.ShouldBlock | src/background/controllers/storage.ts:36-50 | it does not block exactly when both times are present and now lies in `[start, end)` of the same day |
| Storage.ShouldBlockOutsideWindow | src/background/controllers/storage.ts:36-50 | for a window that does not wrap, blocking agrees with a wrap-aware daily-window reference |
| Storage.EmptyWindowAlwaysBlocks | src/background/controllers/storage.ts:36-50 | a window whose end is not after its start blocks at every time |
| Storage.OvernightWindowBlocks | src/background/controllers/storage.ts:36-50 | the window 22:00-06:00 contains 23:30, yet `shouldBlock` blocks then |
| Storage.ScheduleBlocks | src/background/background.ts:58-63 | a stored window whose start or end text is not a time blocks |
| Storage.FindByUrl | src/background/controllers/storage.ts:65-79 | a site is found iff one with that URL is stored, and the one found is stored with that URL |
| Storage.AddSite | src/background/controllers/storage.ts:94-108 | invalid URL, then duplicate URL, are the errors; otherwise the site is appended and nothing else changes |
| Storage.RemoveUrl | src/background/controllers/storage.ts:136-140 | the URL is gone, every other entry remains, nothing new appears; the order is stated by `Storage.RemoveUrlKeepsOrder` |
| Storage.GetScheduledBlockSites | src/background/controllers/storage.ts:55-59 | exactly the stored sites that have a schedule |
| Storage.GetPermanentlyBlockedSites | src/background/controllers/storage.ts:88-92 | exactly the stored sites without a schedule |
| Storage.AddIncognitoBlockSite | src/background/controllers/storage.ts:65-79 | invalid URL, then duplicate URL, are the errors; otherwise the site is appended to the incognito list only |
| Storage.RemoveIncognitoBlockSite | src/background/controllers/storage.ts:81-86 | the URL leaves the incognito list, whose other entries remain, in order (`Storage.StoreRemovalsKeepOrder`); the block list is untouched |
| Storage.AddPermanentBlockSite | src/background/controllers/storage.ts:94-108 | invalid URL, then duplicate URL, are the errors; otherwise a site without schedule is appended |
| Storage.AddScheduledBlockSite | src/background/controllers/storage.ts:110-134 | same errors; otherwise one site is appended whose stored times read back as the given times, and the scheduled view grows by that site |
| Storage.RemoveBlockSite | src/background/controllers/storage.ts:136-140 | the URL leaves the block list, other entries remain, in order (`Storage.StoreRemovalsKeepOrder`); the incognito list is untouched |
| Storage.AddSiteKeepsUrlsUnique | src/background/controllers/storage.ts:94-108 | adding keeps the URLs of a list distinct |
| Storage.RemoveUrlKeepsUnique | src/background/controllers/storage.ts:136-140 | removing keeps the URLs of a list distinct |
| Storage.RemoveUndoesAdd | src/background/controllers/storage.ts:136-140 | removing the URL just added gives back the list before the add |
| Storage.RemoveUrlKeepsOrder | src/background/controllers/storage.ts:136-140 | `filter` keeps the survivors in their order and once each: removal distributes over concatenation, and a single entry stays exactly when its URL differs |
| Storage.StoreRemovalsKeepOrder | src/background/controllers/storage.ts:136-140 | `removeBlockSite` and `removeIncognitoBlockSite` keep the order of the list they filter and leave the other list alone |
| Storage.RemoveAbsentUrl | src/background/controllers/storage.ts:136-140 | removing a URL that is not stored changes nothing |
| Storage.PermanentAndScheduledPartition | src/background/controllers/storage.ts:55-92 | the permanent and the scheduled views together are a permutation of the stored sites |
| Storage.ViewsKeepOrder | src/background/controllers/storage.ts:55-92 | both views distribute over concatenation, so they keep the stored order |
| Storage.AddPermanentViews | src/background/controllers/storage.ts:94-108 | a permanent add grows the permanent view by the new site and leaves the scheduled view as it was |
| Storage.FindGroup | src/background/controllers/storage.ts:142-162 | the index of the first group with the name, none iff no group has it |
| Storage.GetFocusGroupByName | src/background/controllers/storage.ts:211-214 | none iff no group has the name; with unique names the group returned is the only one with it |
| Storage.AddLinkToFocusGroup | src/background/controllers/storage.ts:142-162 | the link is appended to the named group; a missing group is created, not focusing, holding only that link |
| Storage.AddFocusGroup | src/background/controllers/storage.ts:164-182 | null iff the name is taken; otherwise a new empty, non-focusing group is appended |
| Storage.AddFocusGroupWithLinks | src/background/controllers/storage.ts:184-209 | for an existing group, the links become its distinct old links in order followed by the new URLs not among them, each where it first occurs, and no other group changes; otherwise a new group with the URLs as given is appended |
| Storage.MergedLinks | src/background/controllers/storage.ts:184-209 | the merge through a JavaScript `Set` is the distinct old links in order followed by the new URLs not among them, each where it first occurs; it holds every link and URL, no duplicate, and nothing else |
| Storage.RemoveLinkFromFocusGroup | src/background/controllers/storage.ts:216-230 | fails iff the group is missing; otherwise the group's links become `OtherLinks` of its links (the URL gone, the others kept in order), and the other groups are unchanged |
| Storage.OtherLinks | src/background/controllers/storage.ts:216-230 | the links other than the URL: it is gone, every other link remains, nothing new appears |
| Storage.OtherLinksKeepOrder | src/background/controllers/storage.ts:216-230 | the links that stay keep their order and multiplicity: the filter distributes over concatenation and keeps a single link exactly when it differs from the URL |
| Storage.RemoveFocusGroup | src/background/controllers/storage.ts:232-239 | no group of that name remains; every other group remains; nothing new appears; the order is stated by `Storage.RemoveFocusGroupKeepsOrder` |
| Storage.RemoveFocusGroupKeepsOrder | src/background/controllers/storage.ts:232-239 | the other groups keep their order: removal by name distributes over concatenation and keeps a single group exactly when its name differs |
| Storage.ResetAllFocus | src/background/controllers/storage.ts:241-249 | every group stops focusing and nothing else changes |
| Storage.SetFocus | src/background/controllers/storage.ts:251-269 | fails iff the group is missing; otherwise the named group gets the flag and every other group stops focusing |
| Storage.FocusHandlersKeepNamesUnique | src/background/controllers/storage.ts:142-269 | every focus-group handler keeps the group names distinct |
| Storage.RemoveKeepsUniqueNames | src/background/controllers/storage.ts:232-239 | removing a group keeps the names distinct |
| Storage.SetFocusLeavesOneFocusing | src/background/controllers/storage.ts:241-269 | after `setFocus` or `resetAllFocus` at most one group is focusing, and only the named one, only when the flag is set |
| Storage.ResetAfterSetFocus | src/background/controllers/storage.ts:241-269 | resetting after `setFocus` gives the same groups as resetting before it |
| Storage.AddThenRemoveLink | src/background/controllers/storage.ts:142-230 | a link just added is found in its group; removing it then succeeds and leaves the link out of the group of that name |
| Background.FindMatch | src/background/background.ts:45-97 | the index of the first pattern that matches, with every earlier one missing; none when all miss; an error only when some pattern does not compile |
| Background.Urls | src/background/background.ts:45-74 | the patterns of the block list, in order |
| Background.HandleBlockSite | src/background/background.ts:45-74 | at most one redirect; an unparsable URL throws before any |
| Background.HandleFocusMode | src/background/background.ts:76-97 | at most one redirect per group |
| Background.HandleIncognitoBlock | src/background/background.ts:25-43 | at most one redirect, and none outside incognito |
| Background.OnNavigation | src/background/background.ts:99-119 | a URL that does not start with `https://` is left alone |
| Background.FindMatchFinds | src/background/background.ts:45-97 | with compilable patterns, the search succeeds and finds nothing exactly when no pattern matches |
| Background.BlockSiteDecision | src/background/background.ts:45-74 | with compilable patterns, the tab is redirected exactly when the first matching site is permanent or its schedule blocks now |
| Background.FirstMatchOf | src/background/background.ts:45-74 | the site found is the first one whose pattern matches |
| Background.FirstMatchDecides | src/background/background.ts:45-74 | only the first matching site decides; later sites are never consulted |
| Background.FirstMatchIndex | src/background/background.ts:45-74 | the search returns the first matching index, so the decision depends on list order |
| Background.FocusModeDecision | src/background/background.ts:76-97 | with compilable links, the tab is redirected exactly when some focusing group has no link matching the URL |
| Background.NonFocusingGroupsIgnored | src/background/background.ts:76-97 | a group that is not focusing never changes the outcome |
| Background.EmptyFocusGroupBlocks | src/background/background.ts:76-97 | a focusing group without links blocks every page |
| Background.IncognitoDecision | src/background/background.ts:25-43 | with compilable patterns, redirected exactly in incognito when some incognito pattern matches |
| Background.NavigationDecision | src/background/background.ts:99-119 | for an `https://` URL the tab is redirected exactly when the block list, a focus group or the incognito list asks for it |
| Background.UnparseableUrlStops | src/background/background.ts:45-48 | an `https://` URL that `new URL` rejects throws in the first handler, so the later two never run |
| Dom.Html | src/utils/Dom.ts:29-35 | the loop builds each literal piece followed by its value, empty for a falsy or missing value |
| Dom.Css | src/utils/Dom.ts:37-43 | the same construction as `html` |
| Dom.Interpolated | src/utils/Dom.ts:29-43 | a value contributes its text unless it is falsy or missing, in which case it contributes nothing |
| Dom.TemplateOfFalsyValues | src/utils/Dom.ts:29-43 | with only falsy values the result is the literal pieces alone |
| Dom.TemplateSnoc | src/utils/Dom.ts:29-43 | one more literal piece appends that piece and the value after it |
| Dom.FormatName | src/utils/Dom.ts:48-53 | the result starts with `--` and ends with the name; a name already starting with `--` is kept |
| Dom.FormatNameIdempotent | src/utils/Dom.ts:48-53 | formatting twice is formatting once |
| Dom.GetKey | src/utils/Dom.ts:67-69 | the key is the prefix followed by the name; the default empty prefix leaves the name |
| Dom.GetKeyInjective | src/utils/Dom.ts:67-69 | distinct names give distinct storage keys under one prefix |
| Dom.TimeToMinutes | src/utils/Dom.ts:94-100 | the minutes `setHours(parseInt(h))` and `setMinutes(parseInt(m))` add up to, or an Invalid Date: none without a `:`; `Dom.ReadClockText`, `Dom.NonNumericHours` and `Dom.NaNTextInvalid` state the valid and the `NaN` cases |
| Dom.ConvertTimeToDate | src/utils/Dom.ts:94-100 | an Invalid Date exactly when the hours or minutes do not parse (for parsed values within `Date`'s range); otherwise a valid time of day that is the parsed minutes modulo a day |
| Dom.ConvertDateToTime | src/utils/Dom.ts:106-111 | five characters, two digits of hours, a colon, two digits of minutes, holding the time's values |
| Dom.DateText | src/utils/Dom.ts:106-111 | an Invalid Date prints as `NaN:NaN` |
| Dom.TimeRoundTrip | src/utils/Dom.ts:94-111 | printing a time and reading it back gives the same time |
| Dom.DateTextRoundTrip | src/utils/Dom.ts:94-111 | reading back the text of a date, valid or not, gives the same date |
| Dom.ClockTextRoundTrip | src/utils/Dom.ts:94-111 | reading an `HH:MM` text and printing it gives the same text |
| Dom.NaNTextInvalid | src/utils/Dom.ts:94-100 | `NaN:NaN` reads as an Invalid Date |
| Dom.ReadClock | src/utils/Dom.ts:94-100 | an `HH:MM` text reads as the time with those hours and minutes |
| Dom.MilitaryToStandardTime | src/utils/Dom.ts:113-124 | throws a TypeError exactly when the text has no colon |
| Dom.StandardHourOfDay | src/utils/Dom.ts:113-124 | hours 0-23 display as 1-12, with AM before noon and PM from noon |
| Dom.StandardTimeOfClockTime | src/utils/Dom.ts:106-124 | the standard text of a printed time is its 12-hour hour, the two-digit minutes and the right half of the day |
| ObjectSets.Insert | src/utils/assorted-vanillajs/ObjectSet.ts:45-48 | a present key leaves the set as it was; a new key is appended |
| ObjectSets.Add | src/utils/assorted-vanillajs/ObjectSet.ts:45-48 | afterwards the item is present, the old keys are a prefix, and only its key is new |
| ObjectSets.AddAllMembers | src/utils/assorted-vanillajs/ObjectSet.ts:50-55 | adding a list keeps the first occurrence of each new key, in order |
| ObjectSets.Delete | src/utils/assorted-vanillajs/ObjectSet.ts:57-60 | afterwards the item is absent; the flag says whether it was present; other keys remain; nothing new appears; the order is stated by `ObjectSets.DeleteKeepsOrder` |
| ObjectSets.DeleteKeepsOrder | src/utils/assorted-vanillajs/ObjectSet.ts:57-60 | `delete` keeps the other keys in their order: it distributes over a split of the keys and keeps a single key exactly when it is not the deleted one |
| ObjectSets.Size | src/utils/assorted-vanillajs/ObjectSet.ts:37-39 | the number of distinct keys |
| ObjectSets.GetAllData | src/utils/assorted-vanillajs/ObjectSet.ts:74-77 | one parsed item per stored key, in insertion order |
| ObjectSets.Construct | src/utils/assorted-vanillajs/ObjectSet.ts:30-35 | without data the set is empty |
| ObjectSets.ConstructMembers | src/utils/assorted-vanillajs/ObjectSet.ts:30-35 | with data the set is the duplicate-free list of their keys, and its size counts the distinct keys |
| ObjectSets.AddSize | src/utils/assorted-vanillajs/ObjectSet.ts:37-48 | adding a present item changes nothing; adding a new one grows the size by one |
| ObjectSets.SameSerialisation | src/utils/assorted-vanillajs/ObjectSet.ts:45-65 | two items with the same key are indistinguishable to `add`, `delete` and `has` |
| ObjectSets.DeleteAfterAdd | src/utils/assorted-vanillajs/ObjectSet.ts:45-60 | deleting a just-added item reports it present and restores a set that lacked it |
| ObjectSets.GetAllDataOrder | src/utils/assorted-vanillajs/ObjectSet.ts:50-77 | the data read back is the first occurrence of each key, in the order added |
| ObjectSets.DedupOfDedup | src/utils/assorted-vanillajs/ObjectSet.ts:50-55 | adding to a set built from a list is the same as building it from the combined list |
| Options.DefaultGroupName | src/options/options.tsx:18-21 | the default name is `Focus Group ` followed by the decimal digits of the number of groups shown plus one |
| Options.OnFocusGroupAdd | src/options/options.tsx:18-23 | the empty name falls back to the default; null iff that name is taken; otherwise one empty, non-focusing group with a non-empty name is appended |
| Options.DefaultNamesDiffer | src/options/options.tsx:18-21 | different group counts give different default names |
| Options.OnPermScheduleAddAsWritten | src/options/options.tsx:24-31 | as written: an unparsable URL or an origin that is not `https://` is rejected; otherwise the origin, not the pattern, is stored |
| Options.OnPermScheduleAdd | src/options/options.tsx:24-31 | the same checks; the pattern itself is stored, accepted iff it is valid and not yet stored |
| Options.OnScheduleAddAsWritten | src/options/options.tsx:32-48 | as written: the start-after-end check comes first; then the origin is stored with the two times |
| Options.OnScheduleAdd | src/options/options.tsx:32-48 | the same checks in the same order; the pattern itself is stored with a schedule and the old entries are kept |
| Options.StartsAfterEnd | src/options/options.tsx:35 | `startDate > endDate` on the two dates: true only when both are valid and the start's raw minutes exceed the end's; no contract of its own, stated by `Options.TimeOrderCheckedFirst` |
| Options.TimeOrderCheckedFirst | src/options/options.tsx:32-37 | for `HH:MM` times, rejection for order happens exactly when the start is later in the day; equal times pass |
| Options.StoredWindowNeverWraps | src/options/options.tsx:32-48 | a window added from `HH:MM` times reads back as those times, never wraps, and blocks exactly outside it |
| Options.AsWrittenEntryMatchesOnlyOrigin | src/options/options.tsx:24-31 | as written, the stored entry matches only the text of the origin |
| Options.AsWrittenScheduledEntryMatchesOnlyOrigin | src/options/options.tsx:32-48 | as written, the scheduled entry matches only the text of the origin |
| Options.AsWrittenPermanentAddMissesPage | src/options/options.tsx:24-31 | as written, adding a site's domain pattern leaves its pages unblocked |
| Options.PermanentAddBlocksPage | src/options/options.tsx:24-31 | corrected, adding a site's domain pattern blocks every page under it that no earlier entry matches |
| Options.NoMatchNoRedirect | src/background/background.ts:45-74 | a block list none of whose patterns matches never redirects |
| Options.BlockListOnly | src/background/background.ts:99-119 | without focus groups and outside incognito, only the block list decides |
| Options.ExampleAsWritten | src/options/options.tsx:24-31 | as written, after adding `https://example.com/` with domain matching, the page `https://example.com/` is not blocked |
| Options.ExampleCorrected | src/options/options.tsx:24-31 | corrected, the same add blocks that page |
| Options.ExampleSiteStaysReachable | src/options/AppManager.ts:541-546 | both effects for the pattern the options page builds for that site |

## Left out

- Chrome APIs, tab objects and the `chrome.storage` wrapper are left out. Stored lists are passed in and returned, the redirect is counted in an `Outcome`, and the two tab listeners are one function.
- The handlers are `async`, and their interleaving is not modelled. Each runs to completion on the state it reads.
- `new URL` is not modelled. URL parsing is a parameter returning the protocol, host name, path, query and origin, or `None` for a URL it rejects.
- The clock, time zones and daylight saving are not modelled. The current time is a `ClockTime` parameter, and seconds and milliseconds are ignored.
- `Date` objects are reduced to their time of day. `convertTimeToDate` keeps today's date in the source, so only the time of day matters to `shouldBlock`. A `setHours` roll-over past midnight is reduced modulo a day.
- `parseInt` radix prefixes (`0x`) and values beyond 2^53 are not modelled. Decimal digits after optional white space and a sign are.
- `html`/`css` values are modelled as strings, integers, booleans, `null` and `undefined`. Non-integer numbers, `NaN`, `Infinity` and objects (their stringification rules) are not.
- Dom.ToText: prints every integer as plain decimal digits, which is `String(n)` only for |n| < 10^21; larger numbers print in exponent form (`1e+21`) in JavaScript and are not modelled.
- Dom.ConvertTimeToDate: `setHours`/`setMinutes` clip a time beyond `Date`'s range of ±8.64e15 ms to an Invalid Date (for example hours `3000000000`); the model keeps such parsed values valid and reduces them modulo a day, so its "exactly when" holds only for hours and minutes that keep the date within that range.
- Logging is not modelled: the `console.log` calls in `isMatch` (src/options/URLMatcherModel.ts:23-28) and in the background handlers, and the `console.error` in the `catch` of `generateUrlPattern` (src/options/URLMatcherModel.ts:73-75), have no effect on any result.
- `JSON.stringify`/`JSON.parse` are parameters of the `ObjectSet` operations.
- `ObjectSet.forEach` (a callback over `getAllData`) is not modelled separately.
- `ObjectSet.has` is the `Has` predicate; its meaning is stated through `Add`, `Delete` and `SameSerialisation`.
- `downloadAsJSON` (DOM and Blob download) is not modelled.
- `getIncognitoBlockSites` is a plain read of the stored list.
- Fresh ids (`crypto.randomUUID`) are passed in as parameters.
- The number of groups shown on the options page is a parameter of `Options.OnFocusGroupAdd`.
- The DOM, the popup, the blocked page, `DOM.*` selectors, `CSSVariablesManager.set/get` and `LocalStorageBrowser.set/get` are not modelled. The last two are only exercised through the pure `formatName` and `getKey`.
- The regular-expression engine is modelled only for what escaped patterns can produce: literals, `.`, and `*` applied to one atom.
- UrlMatcher.IsMatch: a character is one Dafny `char` (a Unicode scalar value), while a JavaScript regular expression without the `u` flag works on UTF-16 code units, so a `*` after a character outside the Basic Multilingual Plane repeats only its low surrogate there. Matching is faithful only for patterns and URLs of BMP characters; the patterns `generateUrlPattern` builds from ASCII URLs are.
- Background.HandleBlockSite: its own contract states bounds only; what it decides is stated by `Background.BlockSiteDecision` for compilable patterns.
- Background.HandleFocusMode: its own contract bounds the redirects; the decision is stated by `Background.FocusModeDecision`.
- Dom.MilitaryToStandardTime: the contract states only when it throws; its output for printed times is stated by `Dom.StandardTimeOfClockTime`.
- UrlMatcher.QueryPatternIsExact: stated for URLs without `*`; `UrlMatcher.QueryPatternOneStar` covers one `*`, and query patterns with two or more are not characterised.
- UrlMatcher.ExactPatternMatchesItself: proved only for URLs with at most one `*`. Two or more stars make the regular expression differ from the URL.

## Findings

| source | as written | input that shows it | evidently intended | confidence | as-written member | corrected member |
|---|---|---|---|---|---|---|
| src/options/options.tsx:24-31 | `onPermScheduleAdd` stores `new URL(pattern).origin`, which has no path, so for a host without `*` the stored entry matches only the bare origin text. Tab URLs always carry a path, so the page is never blocked. | the domain pattern `https://example.com/` followed by `*`, then visiting `https://example.com/` | store the pattern the options page built | high (not executed) | Options.ExampleAsWritten | Options.ExampleCorrected |
| src/options/options.tsx:32-48 | `onScheduleAdd` stores the origin as well, so a scheduled block never matches a page | any domain, path or query pattern with a valid window | store the pattern with its window | high (not executed) | Options.AsWrittenScheduledEntryMatchesOnlyOrigin | Options.OnScheduleAdd |
