/**
 The three handlers the options page registers in src/options/options.tsx:
 adding a focus group, a permanently blocked site and a scheduled one. Each
 validates its input, then calls the matching `StorageHandler` operation;
 what the page shows afterwards is left out.

 Both block-site handlers store `new URL(pattern).origin` rather than the
 pattern the dialog built (`*AsWritten` below). An origin has no path and no
 `*`, so the stored entry only ever matches the bare origin, which no page
 URL is. The handlers without the suffix store the pattern itself, which is
 what the dialogs evidently intend; the lemmas at the end show both sides.
 */
module Options {
  import opened Wrappers
  import opened Text
  import opened JsRegex
  import opened UrlMatcher
  import opened Storage
  import opened Dom
  import opened Background

  /** What a handler throws: the start-after-end check, `new URL` failing on
      the pattern, or an error from the storage layer (the handlers' own
      https check throws the same "Invalid URL"). */
  datatype HandlerError = StartAfterEnd | UrlNotParsed | Rejected(error: StorageError)

  function Lift<T>(r: Result<T, StorageError>): (l: Result<T, HandlerError>)
    ensures r.Ok? ==> l == Ok(r.value)
    ensures r.Err? ==> l == Err(Rejected(r.error))
  {
    match r
    case Ok(v) => Ok(v)
    case Err(e) => Err(Rejected(e))
  }

  // ---------------------------------------------------------------------------
  // onFocusGroupAdd

  /** The name a group gets when none is typed: numbered one past the groups
      the page currently shows. */
  function DefaultGroupName(shown: nat): (name: string)
    ensures StartsWith(name, "Focus Group ")
    ensures var digits := name[|"Focus Group "|..];
      AllDigits(digits) && DigitsValue(digits) == shown + 1
  {
    "Focus Group " + NatToString(shown + 1)
  }

  /** `onFocusGroupAdd`: `addFocusGroup` under the typed name, or the default
      name when the typed one is empty; `shown` is the number of groups on
      the page. `None` is the `null` returned for a taken name. */
  function OnFocusGroupAdd(groups: seq<FocusGroup>, groupName: string, shown: nat, newId: string)
    : (r: Option<seq<FocusGroup>>)
    ensures var name := if groupName == "" then DefaultGroupName(shown) else groupName;
      && (r.None? <==> HasGroup(groups, name))
      && (r.Some? ==> r.value == groups + [FocusGroup([], false, newId, name)])
    ensures r.Some? ==> r.value[|groups|].name != ""
  {
    AddFocusGroup(groups, if groupName == "" then DefaultGroupName(shown) else groupName, newId)
  }

  /** Distinct counts give distinct default names. */
  lemma DefaultNamesDiffer(a: nat, b: nat)
    requires a != b
    ensures DefaultGroupName(a) != DefaultGroupName(b)
  {
    var n := |"Focus Group "|;
    assert DefaultGroupName(a)[n..] != DefaultGroupName(b)[n..];
  }

  // ---------------------------------------------------------------------------
  // onPermScheduleAdd

  /** `onPermScheduleAdd` as written: the origin of the pattern is stored. */
  function OnPermScheduleAddAsWritten(st: BlockStore, url: string, parse: UrlParser): (r: Result<BlockStore, HandlerError>)
    ensures parse(url).None? ==> r == Err(UrlNotParsed)
    ensures parse(url).Some? && !IsValidUrl(parse(url).value.origin) ==> r == Err(Rejected(InvalidUrl))
    ensures r.Ok? ==> parse(url).Some? && r.value == st.(blockSites := st.blockSites + [BlockSite(parse(url).value.origin, None)])
    ensures parse(url).Some? ==>
      (r.Ok? <==> IsValidUrl(parse(url).value.origin) && !HasUrl(st.blockSites, parse(url).value.origin))
  {
    match parse(url)
    case None => Err(UrlNotParsed)
    case Some(u) =>
      if !IsValidUrl(u.origin) then Err(Rejected(InvalidUrl))
      else Lift(AddPermanentBlockSite(st, u.origin))
  }

  /** `onPermScheduleAdd` storing the pattern it is given; the checks are the
      source's. */
  function OnPermScheduleAdd(st: BlockStore, url: string, parse: UrlParser): (r: Result<BlockStore, HandlerError>)
    ensures parse(url).None? ==> r == Err(UrlNotParsed)
    ensures parse(url).Some? && !IsValidUrl(parse(url).value.origin) ==> r == Err(Rejected(InvalidUrl))
    ensures r.Ok? ==> parse(url).Some? && r.value == st.(blockSites := st.blockSites + [BlockSite(url, None)])
    ensures parse(url).Some? && IsValidUrl(parse(url).value.origin) ==>
      (r.Ok? <==> IsValidUrl(url) && !HasUrl(st.blockSites, url))
  {
    match parse(url)
    case None => Err(UrlNotParsed)
    case Some(u) =>
      if !IsValidUrl(u.origin) then Err(Rejected(InvalidUrl))
      else Lift(AddPermanentBlockSite(st, url))
  }

  // ---------------------------------------------------------------------------
  // onScheduleAdd

  /** `startDate > endDate` on the two dates `convertTimeToDate` builds:
      false when either is an Invalid Date. */
  predicate StartsAfterEnd(startTime: string, endTime: string) {
    var s, e := TimeToMinutes(startTime), TimeToMinutes(endTime);
    s.Some? && e.Some? && s.value > e.value
  }

  /** `onScheduleAdd` as written: the origin of the pattern is stored with
      the two times. Returns the new store and the scheduled sites. */
  function OnScheduleAddAsWritten(st: BlockStore, url: string, startTime: string, endTime: string, parse: UrlParser)
    : (r: Result<(BlockStore, seq<BlockSite>), HandlerError>)
    ensures r == Err(StartAfterEnd) <==> StartsAfterEnd(startTime, endTime)
    ensures !StartsAfterEnd(startTime, endTime) && parse(url).None? ==> r == Err(UrlNotParsed)
    ensures !StartsAfterEnd(startTime, endTime) && parse(url).Some? ==>
      r == Lift(if IsValidUrl(parse(url).value.origin)
                then AddScheduledBlockSite(st, parse(url).value.origin, ConvertTimeToDate(startTime), ConvertTimeToDate(endTime))
                else Err(InvalidUrl))
  {
    if StartsAfterEnd(startTime, endTime) then Err(StartAfterEnd)
    else
      match parse(url)
      case None => Err(UrlNotParsed)
      case Some(u) =>
        if !IsValidUrl(u.origin) then Err(Rejected(InvalidUrl))
        else Lift(AddScheduledBlockSite(st, u.origin, ConvertTimeToDate(startTime), ConvertTimeToDate(endTime)))
  }

  /** `onScheduleAdd` storing the pattern it is given; the checks are the
      source's. */
  function OnScheduleAdd(st: BlockStore, url: string, startTime: string, endTime: string, parse: UrlParser)
    : (r: Result<(BlockStore, seq<BlockSite>), HandlerError>)
    ensures r == Err(StartAfterEnd) <==> StartsAfterEnd(startTime, endTime)
    ensures !StartsAfterEnd(startTime, endTime) && parse(url).None? ==> r == Err(UrlNotParsed)
    ensures !StartsAfterEnd(startTime, endTime) && parse(url).Some? && !IsValidUrl(parse(url).value.origin)
      ==> r == Err(Rejected(InvalidUrl))
    ensures r.Ok? ==> |r.value.0.blockSites| == |st.blockSites| + 1
    ensures r.Ok? ==>
      && r.value.0.blockSites[..|st.blockSites|] == st.blockSites
      && r.value.0.blockSites[|st.blockSites|].url == url
      && r.value.0.blockSites[|st.blockSites|].schedule.Some?
  {
    if StartsAfterEnd(startTime, endTime) then Err(StartAfterEnd)
    else
      match parse(url)
      case None => Err(UrlNotParsed)
      case Some(u) =>
        if !IsValidUrl(u.origin) then Err(Rejected(InvalidUrl))
        else Lift(AddScheduledBlockSite(st, url, ConvertTimeToDate(startTime), ConvertTimeToDate(endTime)))
  }

  // ---------------------------------------------------------------------------
  // Properties of the schedule handler

  /** The time-order check comes first: a window from valid times that
      starts after it ends is rejected whatever the URL. Equal times pass. */
  lemma TimeOrderCheckedFirst(st: BlockStore, url: string, startTime: string, endTime: string, parse: UrlParser)
    requires IsClockText(startTime) && IsClockText(endTime)
    ensures OnScheduleAdd(st, url, startTime, endTime, parse) == Err(StartAfterEnd)
        <==> ReadClock(startTime).MinuteOfDay() > ReadClock(endTime).MinuteOfDay()
    ensures startTime == endTime ==> OnScheduleAdd(st, url, startTime, endTime, parse) != Err(StartAfterEnd)
  {
    var s, e := ReadClock(startTime), ReadClock(endTime);
    assert StartsAfterEnd(startTime, endTime) <==> s.MinuteOfDay() > e.MinuteOfDay();
  }

  /** A window added from valid `HH:MM` times never wraps past midnight, so
      `shouldBlock` blocks exactly outside it (and always, when the two
      times are equal). */
  lemma StoredWindowNeverWraps(st: BlockStore, url: string, startTime: string, endTime: string, parse: UrlParser, now: ClockTime)
    requires now.Valid()
    requires IsClockText(startTime) && IsClockText(endTime)
    requires OnScheduleAdd(st, url, startTime, endTime, parse).Ok?
    ensures var site := OnScheduleAdd(st, url, startTime, endTime, parse).value.0.blockSites[|st.blockSites|];
      var start, end := ReadClock(startTime), ReadClock(endTime);
      && ConvertTimeToDate(site.schedule.value.startTime) == Some(start)
      && ConvertTimeToDate(site.schedule.value.endTime) == Some(end)
      && start.MinuteOfDay() <= end.MinuteOfDay()
      && (ScheduleBlocks(site.schedule.value, now) <==> !InDailyWindow(start, end, now))
  {
    var start, end := ReadClock(startTime), ReadClock(endTime);
    assert !StartsAfterEnd(startTime, endTime);
    var u := parse(url).value;
    assert IsValidUrl(u.origin);
    var added := AddScheduledBlockSite(st, url, Some(start), Some(end));
    assert OnScheduleAdd(st, url, startTime, endTime, parse) == Lift(added);
    ShouldBlockOutsideWindow(start, end, now);
  }

  // ---------------------------------------------------------------------------
  // The stored origin never matches a page

  /** As written, the entry the permanent handler stores matches only the
      text of the origin itself, for an origin without `*`. */
  lemma AsWrittenEntryMatchesOnlyOrigin(st: BlockStore, url: string, parse: UrlParser, page: string)
    requires OnPermScheduleAddAsWritten(st, url, parse).Ok?
    requires '*' !in parse(url).value.origin
    ensures var entry := OnPermScheduleAddAsWritten(st, url, parse).value.blockSites[|st.blockSites|];
      IsMatch(page, entry.url) == Ok(page == parse(url).value.origin)
  {
    IsMatchStarFree(page, parse(url).value.origin);
  }

  /** The same holds for the scheduled handler as written: the entry it
      stores with a window matches only the text of the origin. */
  lemma AsWrittenScheduledEntryMatchesOnlyOrigin(st: BlockStore, url: string, startTime: string, endTime: string,
                                                 parse: UrlParser, page: string)
    requires OnScheduleAddAsWritten(st, url, startTime, endTime, parse).Ok?
    requires '*' !in parse(url).value.origin
    ensures var r := OnScheduleAddAsWritten(st, url, startTime, endTime, parse).value.0;
      && |r.blockSites| == |st.blockSites| + 1
      && IsMatch(page, r.blockSites[|st.blockSites|].url) == Ok(page == parse(url).value.origin)
  {
    var origin := parse(url).value.origin;
    var added := AddScheduledBlockSite(st, origin, ConvertTimeToDate(startTime), ConvertTimeToDate(endTime));
    assert added.Ok? && added.value.0.blockSites[|st.blockSites|].url == origin;
    IsMatchStarFree(page, origin);
  }

  /** As written, after adding the domain pattern of a site, a page of that
      site still loads: the new entry never matches it. */
  lemma AsWrittenPermanentAddMissesPage(st: BlockStore, u: UrlParts, page: string, parse: UrlParser, now: ClockTime)
    requires now.Valid()
    requires OnPermScheduleAddAsWritten(st, DomainPattern(u), parse).Ok?
    requires '*' !in parse(DomainPattern(u)).value.origin
    requires page != parse(DomainPattern(u)).value.origin && parse(page).Some?
    requires forall i :: 0 <= i < |st.blockSites| ==> Misses(page, st.blockSites[i].url)
    ensures HandleBlockSite(page, OnPermScheduleAddAsWritten(st, DomainPattern(u), parse).value.blockSites, now, parse) == Nothing
  {
    var sites := OnPermScheduleAddAsWritten(st, DomainPattern(u), parse).value.blockSites;
    AsWrittenEntryMatchesOnlyOrigin(st, DomainPattern(u), parse, page);
    NoMatchNoRedirect(page, sites, now, parse);
  }

  lemma NoMatchNoRedirect(page: string, sites: seq<BlockSite>, now: ClockTime, parse: UrlParser)
    requires now.Valid() && parse(page).Some?
    requires forall i :: 0 <= i < |sites| ==> Misses(page, sites[i].url)
    ensures HandleBlockSite(page, sites, now, parse) == Nothing
  {
    NoMatchFound(page, Urls(sites));
  }

  lemma {:induction false} NoMatchFound(page: string, patterns: seq<string>)
    requires forall i :: 0 <= i < |patterns| ==> Misses(page, patterns[i])
    ensures FindMatch(page, patterns) == Ok(None)
    decreases |patterns|
  {
    if patterns != [] {
      assert forall i :: 0 <= i < |patterns| - 1 ==> patterns[1..][i] == patterns[i + 1];
      NoMatchFound(page, patterns[1..]);
    }
  }

  /** Storing the pattern instead, the page of the site is blocked: the
      entry the handler adds is the first one matching it. */
  lemma PermanentAddBlocksPage(st: BlockStore, u: UrlParts, page: string, parse: UrlParser, now: ClockTime)
    requires now.Valid()
    requires '*' !in u.protocol && '*' !in u.hostname
    requires OnPermScheduleAdd(st, DomainPattern(u), parse).Ok?
    requires parse(page).Some?
    requires var site := u.protocol + "//" + u.hostname + "/";
      site <= page && NoLineTerminator(page[|site|..])
    requires forall i :: 0 <= i < |st.blockSites| ==> Misses(page, st.blockSites[i].url)
    ensures HandleBlockSite(page, OnPermScheduleAdd(st, DomainPattern(u), parse).value.blockSites, now, parse) == Outcome(1, false)
  {
    var sites := OnPermScheduleAdd(st, DomainPattern(u), parse).value.blockSites;
    var n := |st.blockSites|;
    DomainPatternMatches(u, page);
    assert sites[n].url == DomainPattern(u);
    FirstMatchIndex(page, Urls(sites), n);
  }

  /** With no focus groups and outside incognito, the listener only
      consults the block list. */
  lemma BlockListOnly(url: string, st: BlockStore, now: ClockTime, parse: UrlParser)
    requires now.Valid() && IsValidUrl(url)
    ensures OnNavigation(url, st, [], false, now, parse) == HandleBlockSite(url, st.blockSites, now, parse)
  {
  }

  /** The site of `https://example.com/`, as the URL parser reads it. */
  const ExampleSite := UrlParts("https:", "example.com", "/", "", "https://example.com")

  /** `new URL` of the domain pattern: the star stays in the pathname. */
  const ExamplePatternSite := UrlParts("https:", "example.com", "/*", "", "https://example.com")

  /** `new URL` on the two texts the example parses: the page and its
      domain pattern. No other text is parsed in the example. */
  function ExampleParser(): UrlParser {
    (s: string) =>
      if s == ExamplePage then Some(ExampleSite)
      else if s == ExamplePage + "*" then Some(ExamplePatternSite)
      else None
  }

  const ExamplePage := "https://example.com/"

  /** The domain pattern of the example site, and the facts about it both
      halves below rely on. */
  lemma ExamplePattern()
    ensures DomainPattern(ExampleSite) == ExamplePage + "*"
    ensures ExampleSite.protocol + "//" + ExampleSite.hostname + "/" == ExamplePage
    ensures IsValidUrl(ExampleSite.origin) && IsValidUrl(ExamplePage)
    ensures IsValidUrl(DomainPattern(ExampleSite))
    ensures ExamplePage != ExampleSite.origin
    ensures '*' !in ExampleSite.origin && '*' !in ExampleSite.protocol && '*' !in ExampleSite.hostname
  {
    assert |ExamplePage| != |ExampleSite.origin|;
    ValidUrlExtends(ExamplePage, "*");
    StarFreeExample();
  }

  lemma StarFreeExample()
    ensures '*' !in ExampleSite.origin && '*' !in ExampleSite.protocol && '*' !in ExampleSite.hostname
  {
    assert forall i :: 0 <= i < |ExampleSite.origin| ==> ExampleSite.origin[i] != '*';
  }

  /** As written, adding the domain pattern of `https://example.com/` to an
      empty store leaves `https://example.com/` reachable. */
  lemma ExampleAsWritten(now: ClockTime)
    requires now.Valid()
    ensures var pattern, empty := DomainPattern(ExampleSite), BlockStore([], []);
      && OnPermScheduleAddAsWritten(empty, pattern, ExampleParser()).Ok?
      && OnNavigation(ExamplePage, OnPermScheduleAddAsWritten(empty, pattern, ExampleParser()).value,
                      [], false, now, ExampleParser()) == Nothing
  {
    var parse := ExampleParser();
    var empty := BlockStore([], []);
    ExamplePattern();
    assert parse(DomainPattern(ExampleSite)) == Some(ExamplePatternSite);
    assert parse(ExamplePage) == Some(ExampleSite);
    AsWrittenPermanentAddMissesPage(empty, ExampleSite, ExamplePage, parse, now);
    BlockListOnly(ExamplePage, OnPermScheduleAddAsWritten(empty, DomainPattern(ExampleSite), parse).value, now, parse);
  }

  /** Storing the pattern, the same sequence blocks `https://example.com/`. */
  lemma ExampleCorrected(now: ClockTime)
    requires now.Valid()
    ensures var pattern, empty := DomainPattern(ExampleSite), BlockStore([], []);
      && OnPermScheduleAdd(empty, pattern, ExampleParser()).Ok?
      && OnNavigation(ExamplePage, OnPermScheduleAdd(empty, pattern, ExampleParser()).value,
                      [], false, now, ExampleParser()).Redirected()
  {
    var parse := ExampleParser();
    var empty := BlockStore([], []);
    ExamplePattern();
    assert parse(DomainPattern(ExampleSite)) == Some(ExamplePatternSite);
    assert parse(ExamplePage) == Some(ExampleSite);
    var site := ExampleSite.protocol + "//" + ExampleSite.hostname + "/";
    assert NoLineTerminator(ExamplePage[|site|..]) by { assert ExamplePage[|site|..] == []; }
    PermanentAddBlocksPage(empty, ExampleSite, ExamplePage, parse, now);
    BlockListOnly(ExamplePage, OnPermScheduleAdd(empty, DomainPattern(ExampleSite), parse).value, now, parse);
  }

  /** Adding the pattern the permanent dialog builds for
      `https://example.com/` (that URL followed by `*`) to an empty store,
      then opening
      `https://example.com/`: as written the page loads, storing the pattern
      blocks it. */
  lemma ExampleSiteStaysReachable(now: ClockTime)
    requires now.Valid()
    ensures var pattern, empty := ExamplePage + "*", BlockStore([], []);
      && OnNavigation(ExamplePage, OnPermScheduleAddAsWritten(empty, pattern, ExampleParser()).value,
                      [], false, now, ExampleParser()) == Nothing
      && OnNavigation(ExamplePage, OnPermScheduleAdd(empty, pattern, ExampleParser()).value,
                      [], false, now, ExampleParser()).Redirected()
  {
    ExamplePattern();
    ExampleAsWritten(now);
    ExampleCorrected(now);
  }
}
