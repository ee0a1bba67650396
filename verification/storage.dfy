/**
 `BlockScheduler` and `StorageHandler` of src/background/controllers/storage.ts.

 The extension keeps two records in local storage: the block lists
 (`blockSites`, `incognitoBlockSites`) and the focus groups. Every handler
 reads a record, changes it and writes it back; here each handler is a
 function from the record it reads to the record it writes (and the value it
 returns), and a thrown `Error` is an `Err` that leaves the record as it was.
 The ids `crypto.randomUUID` invents are passed in.
 */
module Storage {
  import opened Wrappers
  import opened Text
  import opened Seqs
  import opened Dom

  // ---------------------------------------------------------------------------
  // Records

  datatype Schedule = Schedule(startTime: string, endTime: string)

  /** A blocked URL pattern, with the daily window in which it is allowed
      when it has a schedule. */
  datatype BlockSite = BlockSite(url: string, schedule: Option<Schedule>)

  datatype BlockStore = BlockStore(blockSites: seq<BlockSite>, incognitoBlockSites: seq<BlockSite>)

  datatype FocusGroup = FocusGroup(links: seq<string>, isFocusing: bool, id: string, name: string)

  /** The messages of the errors the handlers throw. */
  datatype StorageError = InvalidUrl | SiteAlreadyExists | FocusGroupNotFound

  // ---------------------------------------------------------------------------
  // BlockScheduler

  /** `BlockScheduler.isValidUrl`. */
  function IsValidUrl(url: string): (r: bool)
    ensures r <==> |url| >= 8 && url[..8] == "https://"
  {
    StartsWith(url, "https://")
  }

  /** A URL that passes keeps passing whatever is appended to it. */
  lemma ValidUrlExtends(url: string, more: string)
    ensures IsValidUrl(url) ==> IsValidUrl(url + more)
  {
    if IsValidUrl(url) {
      assert (url + more)[..8] == url[..8];
    }
  }

  /** `BlockScheduler.shouldBlock`. The scheduler's dates are `None` when
      they are Invalid Dates: every comparison with their `NaN` hours is
      false, so the site is blocked. The fractional hours `h + m / 60` of the
      source order times exactly as minutes of the day do. */
  function ShouldBlock(start: Option<ClockTime>, end: Option<ClockTime>, now: ClockTime): (r: bool)
    requires now.Valid()
    ensures !r <==> && start.Some? && end.Some?
                    && start.value.MinuteOfDay() <= now.MinuteOfDay()
                    && now.MinuteOfDay() < end.value.MinuteOfDay()
  {
    match (start, end)
    case (Some(s), Some(e)) =>
      var m := now.MinuteOfDay();
      !(s.MinuteOfDay() <= m && m < e.MinuteOfDay())
    case _ => true
  }

  /** Whether `now` lies in the daily window from `start` to `end`, read as
      a window that wraps past midnight when it ends before it starts. */
  predicate InDailyWindow(start: ClockTime, end: ClockTime, now: ClockTime) {
    var s, e, m := start.MinuteOfDay(), end.MinuteOfDay(), now.MinuteOfDay();
    if s <= e then s <= m < e else s <= m || m < e
  }

  /** For a window that does not wrap, `shouldBlock` blocks exactly outside
      the window. */
  lemma ShouldBlockOutsideWindow(start: ClockTime, end: ClockTime, now: ClockTime)
    requires now.Valid()
    requires start.MinuteOfDay() <= end.MinuteOfDay()
    ensures ShouldBlock(Some(start), Some(end), now) <==> !InDailyWindow(start, end, now)
  {
  }

  /** A window that ends where or before it starts never lets the site
      through: the test is a same-day interval. */
  lemma EmptyWindowAlwaysBlocks(start: ClockTime, end: ClockTime, now: ClockTime)
    requires now.Valid()
    requires end.MinuteOfDay() <= start.MinuteOfDay()
    ensures ShouldBlock(Some(start), Some(end), now)
  {
  }

  /** A window from 22:00 to 06:00 still blocks at 23:30, inside the window
      read as wrapping. */
  lemma OvernightWindowBlocks()
    ensures InDailyWindow(ClockTime(22, 0), ClockTime(6, 0), ClockTime(23, 30))
    ensures ShouldBlock(Some(ClockTime(22, 0)), Some(ClockTime(6, 0)), ClockTime(23, 30))
  {
  }

  /** Whether a stored schedule blocks at `now`: its times are read back with
      `DateModel.convertTimeToDate`, as the background worker does. */
  function ScheduleBlocks(schedule: Schedule, now: ClockTime): (r: bool)
    requires now.Valid()
    ensures ConvertTimeToDate(schedule.startTime).None? ==> r
    ensures ConvertTimeToDate(schedule.endTime).None? ==> r
  {
    ShouldBlock(ConvertTimeToDate(schedule.startTime), ConvertTimeToDate(schedule.endTime), now)
  }

  // ---------------------------------------------------------------------------
  // Block lists

  predicate HasUrl(sites: seq<BlockSite>, url: string) {
    exists i :: 0 <= i < |sites| && sites[i].url == url
  }

  /** No two entries of a list have the same URL. */
  predicate UniqueUrls(sites: seq<BlockSite>) {
    forall i, j :: 0 <= i < j < |sites| ==> sites[i].url != sites[j].url
  }

  predicate IsScheduled(site: BlockSite) {
    site.schedule.Some?
  }

  predicate IsPermanent(site: BlockSite) {
    !IsScheduled(site)
  }

  /** `sites.find(site => site.url === url)`. */
  function FindByUrl(sites: seq<BlockSite>, url: string): (r: Option<BlockSite>)
    ensures r.None? <==> !HasUrl(sites, url)
    ensures r.Some? ==> r.value in sites && r.value.url == url
  {
    if sites == [] then None
    else if sites[0].url == url then Some(sites[0])
    else
      var r := FindByUrl(sites[1..], url);
      assert HasUrl(sites, url) ==> HasUrl(sites[1..], url) by {
        if HasUrl(sites, url) {
          var i :| 0 <= i < |sites| && sites[i].url == url;
          assert sites[1..][i - 1].url == url;
        }
      }
      assert HasUrl(sites[1..], url) ==> HasUrl(sites, url) by {
        if HasUrl(sites[1..], url) {
          var i :| 0 <= i < |sites| - 1 && sites[1..][i].url == url;
          assert sites[i + 1].url == url;
        }
      }
      r
  }

  /** The check and push the three add handlers share: reject a URL that is
      not https, then one already listed, else append the entry. */
  function AddSite(sites: seq<BlockSite>, site: BlockSite): (r: Result<seq<BlockSite>, StorageError>)
    ensures !IsValidUrl(site.url) ==> r == Err(InvalidUrl)
    ensures IsValidUrl(site.url) && HasUrl(sites, site.url) ==> r == Err(SiteAlreadyExists)
    ensures r.Ok? <==> IsValidUrl(site.url) && !HasUrl(sites, site.url)
    ensures r.Ok? ==> r.value == sites + [site]
  {
    if !IsValidUrl(site.url) then Err(InvalidUrl)
    else if FindByUrl(sites, site.url).Some? then Err(SiteAlreadyExists)
    else Ok(sites + [site])
  }

  /** `sites.filter(site => site.url !== url)`. */
  function RemoveUrl(sites: seq<BlockSite>, url: string): (r: seq<BlockSite>)
    ensures !HasUrl(r, url)
    ensures forall i :: 0 <= i < |sites| && sites[i].url != url ==> sites[i] in r
    ensures forall i :: 0 <= i < |r| ==> r[i] in sites
  {
    Filter(sites, (site: BlockSite) => site.url != url)
  }

  /** `StorageHandler.getScheduledBlockSites`. */
  function GetScheduledBlockSites(st: BlockStore): (r: seq<BlockSite>)
    ensures forall i :: 0 <= i < |r| ==> IsScheduled(r[i]) && r[i] in st.blockSites
    ensures forall i :: 0 <= i < |st.blockSites| && IsScheduled(st.blockSites[i]) ==> st.blockSites[i] in r
  {
    Filter(st.blockSites, IsScheduled)
  }

  /** `StorageHandler.getPermanentlyBlockedSites`. */
  function GetPermanentlyBlockedSites(st: BlockStore): (r: seq<BlockSite>)
    ensures forall i :: 0 <= i < |r| ==> !IsScheduled(r[i]) && r[i] in st.blockSites
    ensures forall i :: 0 <= i < |st.blockSites| && !IsScheduled(st.blockSites[i]) ==> st.blockSites[i] in r
  {
    Filter(st.blockSites, IsPermanent)
  }

  /** `StorageHandler.addIncognitoBlockSite`: the new incognito list. */
  function AddIncognitoBlockSite(st: BlockStore, url: string): (r: Result<BlockStore, StorageError>)
    ensures !IsValidUrl(url) ==> r == Err(InvalidUrl)
    ensures IsValidUrl(url) && HasUrl(st.incognitoBlockSites, url) ==> r == Err(SiteAlreadyExists)
    ensures r.Ok? <==> IsValidUrl(url) && !HasUrl(st.incognitoBlockSites, url)
    ensures r.Ok? ==> r.value == st.(incognitoBlockSites := st.incognitoBlockSites + [BlockSite(url, None)])
  {
    var sites :- AddSite(st.incognitoBlockSites, BlockSite(url, None));
    Ok(st.(incognitoBlockSites := sites))
  }

  /** `StorageHandler.removeIncognitoBlockSite`. */
  function RemoveIncognitoBlockSite(st: BlockStore, url: string): (r: BlockStore)
    ensures !HasUrl(r.incognitoBlockSites, url)
    ensures r.blockSites == st.blockSites
    ensures forall i :: 0 <= i < |st.incognitoBlockSites| && st.incognitoBlockSites[i].url != url
                    ==> st.incognitoBlockSites[i] in r.incognitoBlockSites
  {
    st.(incognitoBlockSites := RemoveUrl(st.incognitoBlockSites, url))
  }

  /** `StorageHandler.addPermanentBlockSite`. */
  function AddPermanentBlockSite(st: BlockStore, url: string): (r: Result<BlockStore, StorageError>)
    ensures !IsValidUrl(url) ==> r == Err(InvalidUrl)
    ensures IsValidUrl(url) && HasUrl(st.blockSites, url) ==> r == Err(SiteAlreadyExists)
    ensures r.Ok? <==> IsValidUrl(url) && !HasUrl(st.blockSites, url)
    ensures r.Ok? ==> r.value == st.(blockSites := st.blockSites + [BlockSite(url, None)])
  {
    var sites :- AddSite(st.blockSites, BlockSite(url, None));
    Ok(st.(blockSites := sites))
  }

  /** `StorageHandler.addScheduledBlockSite`: the new store and the scheduled
      sites it returns. The start and end are stored as `HH:MM` text, or
      `NaN:NaN` for an Invalid Date. */
  function AddScheduledBlockSite(st: BlockStore, url: string, startTime: Option<ClockTime>, endTime: Option<ClockTime>)
    : (r: Result<(BlockStore, seq<BlockSite>), StorageError>)
    requires startTime.Some? ==> startTime.value.Valid()
    requires endTime.Some? ==> endTime.value.Valid()
    ensures !IsValidUrl(url) ==> r == Err(InvalidUrl)
    ensures IsValidUrl(url) && HasUrl(st.blockSites, url) ==> r == Err(SiteAlreadyExists)
    ensures r.Ok? <==> IsValidUrl(url) && !HasUrl(st.blockSites, url)
    ensures r.Ok? ==> |r.value.0.blockSites| == |st.blockSites| + 1
    ensures r.Ok? ==> var site := r.value.0.blockSites[|st.blockSites|];
      && r.value.0 == st.(blockSites := st.blockSites + [site])
      && site.url == url && site.schedule.Some?
      && ConvertTimeToDate(site.schedule.value.startTime) == startTime
      && ConvertTimeToDate(site.schedule.value.endTime) == endTime
    ensures r.Ok? ==> r.value.1 == GetScheduledBlockSites(st) + [r.value.0.blockSites[|st.blockSites|]]
  {
    var site := BlockSite(url, Some(Schedule(DateText(startTime), DateText(endTime))));
    DateTextRoundTrip(startTime);
    DateTextRoundTrip(endTime);
    var sites :- AddSite(st.blockSites, site);
    FilterConcat(st.blockSites, [site], IsScheduled);
    FilterSingleton(site, IsScheduled);
    var st' := st.(blockSites := sites);
    Ok((st', GetScheduledBlockSites(st')))
  }

  /** `StorageHandler.removeBlockSite`. */
  function RemoveBlockSite(st: BlockStore, url: string): (r: BlockStore)
    ensures !HasUrl(r.blockSites, url)
    ensures r.incognitoBlockSites == st.incognitoBlockSites
    ensures forall i :: 0 <= i < |st.blockSites| && st.blockSites[i].url != url
                    ==> st.blockSites[i] in r.blockSites
  {
    st.(blockSites := RemoveUrl(st.blockSites, url))
  }

  // ---------------------------------------------------------------------------
  // Properties of the block lists

  /** The add handlers keep every URL listed once. */
  lemma AddSiteKeepsUrlsUnique(sites: seq<BlockSite>, site: BlockSite)
    requires UniqueUrls(sites)
    ensures AddSite(sites, site).Ok? ==> UniqueUrls(AddSite(sites, site).value)
  {
    if AddSite(sites, site).Ok? {
      var r := sites + [site];
      forall i, j | 0 <= i < j < |r| ensures r[i].url != r[j].url {
        if j == |sites| {
          assert !HasUrl(sites, site.url);
          assert r[i] == sites[i];
        }
      }
    }
  }

  /** Removing keeps the others in their order and never creates duplicates. */
  lemma {:induction false} RemoveUrlKeepsUnique(sites: seq<BlockSite>, url: string)
    requires UniqueUrls(sites)
    ensures UniqueUrls(RemoveUrl(sites, url))
    decreases |sites|
  {
    if sites != [] {
      RemoveUrlKeepsUnique(sites[1..], url);
      var keep := (site: BlockSite) => site.url != url;
      assert RemoveUrl(sites, url) == (if keep(sites[0]) then [sites[0]] else []) + RemoveUrl(sites[1..], url);
      var rest := RemoveUrl(sites[1..], url);
      forall i | 0 <= i < |rest| ensures rest[i].url != sites[0].url {
        var k :| 0 <= k < |sites[1..]| && sites[1..][k] == rest[i];
        assert sites[k + 1] == rest[i];
      }
    }
  }

  /** Removing a URL right after adding it restores the list: remove is the
      inverse of a successful add. */
  lemma RemoveUndoesAdd(sites: seq<BlockSite>, site: BlockSite)
    requires AddSite(sites, site).Ok?
    ensures RemoveUrl(AddSite(sites, site).value, site.url) == sites
  {
    var keep := (s: BlockSite) => s.url != site.url;
    FilterConcat(sites, [site], keep);
    FilterSingleton(site, keep);
    forall x | x in sites ensures keep(x) {
      var i :| 0 <= i < |sites| && sites[i] == x;
    }
    FilterAll(sites, keep);
    assert sites + [] == sites;
  }

  /** Removing an unlisted URL changes nothing. */
  lemma RemoveAbsentUrl(sites: seq<BlockSite>, url: string)
    requires !HasUrl(sites, url)
    ensures RemoveUrl(sites, url) == sites
  {
    var keep := (s: BlockSite) => s.url != url;
    forall x | x in sites ensures keep(x) {
      var i :| 0 <= i < |sites| && sites[i] == x;
    }
    FilterAll(sites, keep);
  }

  /** `filter` keeps the survivors in their order: removal distributes over
      concatenation and keeps a single entry exactly when its URL differs.
      Together the two determine the result, so the first entry a pattern
      search finds is the same before and after removing another URL. */
  lemma RemoveUrlKeepsOrder(a: seq<BlockSite>, b: seq<BlockSite>, site: BlockSite, url: string)
    ensures RemoveUrl(a + b, url) == RemoveUrl(a, url) + RemoveUrl(b, url)
    ensures RemoveUrl([site], url) == if site.url != url then [site] else []
  {
    var keep := (s: BlockSite) => s.url != url;
    FilterConcat(a, b, keep);
    FilterSingleton(site, keep);
  }

  /** `removeBlockSite` and `removeIncognitoBlockSite` keep the order of the
      entries of the list they filter. */
  lemma StoreRemovalsKeepOrder(st: BlockStore, url: string,
                               a: seq<BlockSite>, b: seq<BlockSite>, c: seq<BlockSite>, d: seq<BlockSite>)
    requires st.blockSites == a + b && st.incognitoBlockSites == c + d
    ensures RemoveBlockSite(st, url).blockSites == RemoveUrl(a, url) + RemoveUrl(b, url)
    ensures RemoveIncognitoBlockSite(st, url).incognitoBlockSites == RemoveUrl(c, url) + RemoveUrl(d, url)
  {
    RemoveUrlKeepsOrder(a, b, BlockSite(url, None), url);
    RemoveUrlKeepsOrder(c, d, BlockSite(url, None), url);
  }

  /** Permanent and scheduled sites split `blockSites` in two: together they
      hold every entry exactly as often as the list does. */
  lemma PermanentAndScheduledPartition(sites: seq<BlockSite>)
    ensures multiset(GetPermanentlyBlockedSites(BlockStore(sites, []))) + multiset(GetScheduledBlockSites(BlockStore(sites, [])))
         == multiset(sites)
    ensures |GetPermanentlyBlockedSites(BlockStore(sites, []))| + |GetScheduledBlockSites(BlockStore(sites, []))| == |sites|
  {
    FilterSplit(sites, IsPermanent, IsScheduled);
  }

  /** Each view keeps the order of `blockSites`: it distributes over any split
      of the list. */
  lemma ViewsKeepOrder(a: seq<BlockSite>, b: seq<BlockSite>)
    ensures GetScheduledBlockSites(BlockStore(a + b, [])) == GetScheduledBlockSites(BlockStore(a, [])) + GetScheduledBlockSites(BlockStore(b, []))
    ensures GetPermanentlyBlockedSites(BlockStore(a + b, [])) == GetPermanentlyBlockedSites(BlockStore(a, [])) + GetPermanentlyBlockedSites(BlockStore(b, []))
  {
    FilterConcat(a, b, IsScheduled);
    FilterConcat(a, b, IsPermanent);
  }

  /** Adding a permanent site extends the permanent view by that site and
      leaves the scheduled view as it was. */
  lemma AddPermanentViews(st: BlockStore, url: string)
    requires AddPermanentBlockSite(st, url).Ok?
    ensures var st' := AddPermanentBlockSite(st, url).value;
      && GetPermanentlyBlockedSites(st') == GetPermanentlyBlockedSites(st) + [BlockSite(url, None)]
      && GetScheduledBlockSites(st') == GetScheduledBlockSites(st)
  {
    var site := BlockSite(url, None);
    ViewsKeepOrder(st.blockSites, [site]);
    FilterSingleton(site, IsScheduled);
    FilterSingleton(site, IsPermanent);
    assert GetScheduledBlockSites(st) + [] == GetScheduledBlockSites(st);
  }

  // ---------------------------------------------------------------------------
  // Focus groups

  /** No two groups share a name. */
  predicate UniqueNames(groups: seq<FocusGroup>) {
    forall i, j :: 0 <= i < j < |groups| ==> groups[i].name != groups[j].name
  }

  predicate HasGroup(groups: seq<FocusGroup>, name: string) {
    exists i :: 0 <= i < |groups| && groups[i].name == name
  }

  /** At most one group is focusing. */
  predicate AtMostOneFocusing(groups: seq<FocusGroup>) {
    forall i, j :: 0 <= i < |groups| && 0 <= j < |groups| && groups[i].isFocusing && groups[j].isFocusing ==> i == j
  }

  /** `groups.findIndex(group => group.name === name)`, `None` for `-1`. */
  function FindGroup(groups: seq<FocusGroup>, name: string): (r: Option<nat>)
    ensures r.None? <==> !HasGroup(groups, name)
    ensures r.Some? ==> r.value < |groups| && groups[r.value].name == name
    ensures r.Some? ==> forall j :: 0 <= j < r.value ==> groups[j].name != name
  {
    if groups == [] then None
    else if groups[0].name == name then Some(0)
    else
      match FindGroup(groups[1..], name)
      case None =>
        assert !HasGroup(groups, name) by {
          forall i | 0 <= i < |groups| ensures groups[i].name != name {
            if i > 0 { assert groups[1..][i - 1] == groups[i]; }
          }
        }
        None
      case Some(k) =>
        assert groups[1..][k] == groups[k + 1];
        assert forall j :: 1 <= j < k + 1 ==> groups[1..][j - 1] == groups[j];
        Some(k + 1)
  }

  /** `StorageHandler.getFocusGroupByName`: the first group with that name. */
  function GetFocusGroupByName(groups: seq<FocusGroup>, name: string): (r: Option<FocusGroup>)
    ensures r.None? <==> !HasGroup(groups, name)
    ensures r.Some? ==> r.value in groups && r.value.name == name
    ensures UniqueNames(groups) && r.Some? ==> forall i :: 0 <= i < |groups| && groups[i].name == name ==> groups[i] == r.value
  {
    match FindGroup(groups, name)
    case None => None
    case Some(i) => Some(groups[i])
  }

  /** `StorageHandler.addLinkToFocusGroup`: the link is pushed onto the named
      group (even when already there), or a new group holding just that link
      is appended. */
  function AddLinkToFocusGroup(groups: seq<FocusGroup>, name: string, urlPattern: string, newId: string)
    : (r: seq<FocusGroup>)
    ensures HasGroup(groups, name) ==>
      var i := FindGroup(groups, name).value;
      r == groups[i := groups[i].(links := groups[i].links + [urlPattern])]
    ensures !HasGroup(groups, name) ==> r == groups + [FocusGroup([urlPattern], false, newId, name)]
  {
    match FindGroup(groups, name)
    case Some(i) => groups[i := groups[i].(links := groups[i].links + [urlPattern])]
    case None => groups + [FocusGroup([urlPattern], false, newId, name)]
  }

  /** `StorageHandler.addFocusGroup`: `None` (`null`) when the name is taken. */
  function AddFocusGroup(groups: seq<FocusGroup>, name: string, newId: string): (r: Option<seq<FocusGroup>>)
    ensures r.None? <==> HasGroup(groups, name)
    ensures r.Some? ==> r.value == groups + [FocusGroup([], false, newId, name)]
  {
    if FindGroup(groups, name).Some? then None
    else Some(groups + [FocusGroup([], false, newId, name)])
  }

  /** `Array.from(new Set(links))` after adding each of `urls`: distinct,
      holding exactly the links and the urls, with the existing links first. */
  lemma MergedLinks(links: seq<string>, urls: seq<string>)
    ensures var m := Dedup(links + urls);
      && m == Dedup(links) + Dedup(Filter(urls, NotIn(links)))
      && Dedup(links) <= m
      && Distinct(m)
      && (forall k :: 0 <= k < |m| ==> m[k] in links || m[k] in urls)
      && (forall k :: 0 <= k < |links| ==> links[k] in m)
      && (forall k :: 0 <= k < |urls| ==> urls[k] in m)
  {
    var all := links + urls;
    var m := Dedup(all);
    DedupAppend(links, urls);
    forall k | 0 <= k < |links| ensures links[k] in m {
      assert all[k] == links[k];
    }
    forall k | 0 <= k < |urls| ensures urls[k] in m {
      assert all[|links| + k] == urls[k];
    }
    forall k | 0 <= k < |m| ensures m[k] in links || m[k] in urls {
      var j :| 0 <= j < |all| && all[j] == m[k];
      if j >= |links| { assert urls[j - |links|] == m[k]; }
    }
  }

  /** `StorageHandler.addFocusGroupWithLinks`: merged into the named group as
      the insertion-ordered union of its links and `urls`, or appended as a
      new group holding `urls` as given. */
  function AddFocusGroupWithLinks(groups: seq<FocusGroup>, name: string, urls: seq<string>, newId: string)
    : (r: seq<FocusGroup>)
    ensures |r| == |groups| || |r| == |groups| + 1
    ensures HasGroup(groups, name) ==>
      var i := FindGroup(groups, name).value;
      && |r| == |groups|
      && (forall j :: 0 <= j < |groups| && j != i ==> r[j] == groups[j])
      && r[i] == groups[i].(links := r[i].links)
      && r[i].links == Dedup(groups[i].links) + Dedup(Filter(urls, NotIn(groups[i].links)))
      && Distinct(r[i].links)
      && (forall k :: 0 <= k < |r[i].links| ==> r[i].links[k] in groups[i].links || r[i].links[k] in urls)
      && (forall k :: 0 <= k < |groups[i].links| ==> groups[i].links[k] in r[i].links)
      && (forall k :: 0 <= k < |urls| ==> urls[k] in r[i].links)
    ensures !HasGroup(groups, name) ==> r == groups + [FocusGroup(urls, false, newId, name)]
  {
    match FindGroup(groups, name)
    case Some(i) =>
      var linksSet := Dedup(groups[i].links + urls);
      MergedLinks(groups[i].links, urls);
      groups[i := groups[i].(links := linksSet)]
    case None => groups + [FocusGroup(urls, false, newId, name)]
  }

  /** `links.filter(link => link !== url)`. */
  function OtherLinks(links: seq<string>, url: string): (r: seq<string>)
    ensures url !in r
    ensures forall k :: 0 <= k < |links| && links[k] != url ==> links[k] in r
    ensures forall k :: 0 <= k < |r| ==> r[k] in links
  {
    Filter(links, NotIn([url]))
  }

  /** `StorageHandler.removeLinkFromFocusGroup`: every copy of the link
      leaves the named group. */
  function RemoveLinkFromFocusGroup(groups: seq<FocusGroup>, name: string, url: string)
    : (r: Result<seq<FocusGroup>, StorageError>)
    ensures r.Err? <==> !HasGroup(groups, name)
    ensures r.Err? ==> r.error == FocusGroupNotFound
    ensures r.Ok? ==>
      var i := FindGroup(groups, name).value;
      && |r.value| == |groups|
      && (forall j :: 0 <= j < |groups| && j != i ==> r.value[j] == groups[j])
      && r.value[i] == groups[i].(links := r.value[i].links)
      && url !in r.value[i].links
      && (forall k :: 0 <= k < |groups[i].links| && groups[i].links[k] != url ==> groups[i].links[k] in r.value[i].links)
      && r.value[i].links == OtherLinks(groups[i].links, url)
  {
    match FindGroup(groups, name)
    case None => Err(FocusGroupNotFound)
    case Some(i) =>
      var newLinks := OtherLinks(groups[i].links, url);
      Ok(groups[i := groups[i].(links := newLinks)])
  }

  /** `StorageHandler.removeFocusGroup`: every group with the name goes. */
  function RemoveFocusGroup(groups: seq<FocusGroup>, name: string): (r: seq<FocusGroup>)
    ensures !HasGroup(r, name)
    ensures forall i :: 0 <= i < |groups| && groups[i].name != name ==> groups[i] in r
    ensures forall i :: 0 <= i < |r| ==> r[i] in groups
  {
    Filter(groups, (group: FocusGroup) => group.name != name)
  }

  /** `StorageHandler.resetAllFocus`. */
  function ResetAllFocus(groups: seq<FocusGroup>): (r: seq<FocusGroup>)
    ensures |r| == |groups|
    ensures forall i :: 0 <= i < |r| ==> !r[i].isFocusing && r[i] == groups[i].(isFocusing := false)
  {
    Map(groups, (group: FocusGroup) => group.(isFocusing := false))
  }

  /** `StorageHandler.setFocus`: the first group with the name gets the flag,
      every other group stops focusing. */
  function SetFocus(groups: seq<FocusGroup>, name: string, isFocusing: bool): (r: Result<seq<FocusGroup>, StorageError>)
    ensures r.Err? <==> !HasGroup(groups, name)
    ensures r.Err? ==> r.error == FocusGroupNotFound
    ensures r.Ok? ==>
      var i := FindGroup(groups, name).value;
      && |r.value| == |groups|
      && r.value[i] == groups[i].(isFocusing := isFocusing)
      && (forall j :: 0 <= j < |groups| && j != i ==> r.value[j] == groups[j].(isFocusing := false))
  {
    match FindGroup(groups, name)
    case None => Err(FocusGroupNotFound)
    case Some(i) =>
      Ok(seq(|groups|, j requires 0 <= j < |groups| =>
        groups[j].(isFocusing := if j == i then isFocusing else false)))
  }

  // ---------------------------------------------------------------------------
  // Properties of the focus groups

  /** Only the flags and the links of the named group change: names, ids
      and order stay, so unique names stay unique. */
  predicate SameNames(a: seq<FocusGroup>, b: seq<FocusGroup>) {
    |a| == |b| && forall i :: 0 <= i < |a| ==> a[i].name == b[i].name
  }

  lemma SameNamesKeepUnique(a: seq<FocusGroup>, b: seq<FocusGroup>)
    requires SameNames(a, b) && UniqueNames(a)
    ensures UniqueNames(b)
  {
  }

  lemma AppendNewNameKeepsUnique(groups: seq<FocusGroup>, g: FocusGroup)
    requires UniqueNames(groups) && !HasGroup(groups, g.name)
    ensures UniqueNames(groups + [g])
  {
    var r := groups + [g];
    forall i, j | 0 <= i < j < |r| ensures r[i].name != r[j].name {
      if j == |groups| {
        assert r[i] == groups[i];
      }
    }
  }

  /** No focus-group handler ever creates a second group with a name that
      is already taken. */
  lemma FocusHandlersKeepNamesUnique(groups: seq<FocusGroup>, name: string, url: string, urls: seq<string>, flag: bool, newId: string)
    requires UniqueNames(groups)
    ensures UniqueNames(AddLinkToFocusGroup(groups, name, url, newId))
    ensures AddFocusGroup(groups, name, newId).Some? ==> UniqueNames(AddFocusGroup(groups, name, newId).value)
    ensures UniqueNames(AddFocusGroupWithLinks(groups, name, urls, newId))
    ensures RemoveLinkFromFocusGroup(groups, name, url).Ok? ==> UniqueNames(RemoveLinkFromFocusGroup(groups, name, url).value)
    ensures UniqueNames(RemoveFocusGroup(groups, name))
    ensures UniqueNames(ResetAllFocus(groups))
    ensures SetFocus(groups, name, flag).Ok? ==> UniqueNames(SetFocus(groups, name, flag).value)
  {
    FocusAddsKeepNamesUnique(groups, name, url, urls, newId);
    if HasGroup(groups, name) {
      assert UniqueNames(RemoveLinkFromFocusGroup(groups, name, url).value) by {
        SameNamesKeepUnique(groups, RemoveLinkFromFocusGroup(groups, name, url).value);
      }
      assert UniqueNames(SetFocus(groups, name, flag).value) by {
        SameNamesKeepUnique(groups, SetFocus(groups, name, flag).value);
      }
    }
    assert UniqueNames(ResetAllFocus(groups)) by {
      SameNamesKeepUnique(groups, ResetAllFocus(groups));
    }
    RemoveKeepsUniqueNames(groups, name);
  }

  /** The three ways of adding a group or a link: an existing name is
      reused, a new one is appended. */
  lemma FocusAddsKeepNamesUnique(groups: seq<FocusGroup>, name: string, url: string, urls: seq<string>, newId: string)
    requires UniqueNames(groups)
    ensures UniqueNames(AddLinkToFocusGroup(groups, name, url, newId))
    ensures AddFocusGroup(groups, name, newId).Some? ==> UniqueNames(AddFocusGroup(groups, name, newId).value)
    ensures UniqueNames(AddFocusGroupWithLinks(groups, name, urls, newId))
  {
    if HasGroup(groups, name) {
      assert UniqueNames(AddLinkToFocusGroup(groups, name, url, newId)) by {
        SameNamesKeepUnique(groups, AddLinkToFocusGroup(groups, name, url, newId));
      }
      assert UniqueNames(AddFocusGroupWithLinks(groups, name, urls, newId)) by {
        SameNamesKeepUnique(groups, AddFocusGroupWithLinks(groups, name, urls, newId));
      }
    } else {
      assert UniqueNames(AddLinkToFocusGroup(groups, name, url, newId)) by {
        AppendNewNameKeepsUnique(groups, FocusGroup([url], false, newId, name));
      }
      assert AddFocusGroup(groups, name, newId).Some? ==> UniqueNames(AddFocusGroup(groups, name, newId).value) by {
        AppendNewNameKeepsUnique(groups, FocusGroup([], false, newId, name));
      }
      assert UniqueNames(AddFocusGroupWithLinks(groups, name, urls, newId)) by {
        AppendNewNameKeepsUnique(groups, FocusGroup(urls, false, newId, name));
      }
    }
  }

  /** `removeFocusGroup` keeps the other groups in their order, as
      `RemoveUrlKeepsOrder` does for sites. */
  lemma RemoveFocusGroupKeepsOrder(a: seq<FocusGroup>, b: seq<FocusGroup>, g: FocusGroup, name: string)
    ensures RemoveFocusGroup(a + b, name) == RemoveFocusGroup(a, name) + RemoveFocusGroup(b, name)
    ensures RemoveFocusGroup([g], name) == if g.name != name then [g] else []
  {
    var keep := (group: FocusGroup) => group.name != name;
    FilterConcat(a, b, keep);
    FilterSingleton(g, keep);
  }

  /** The links that stay in a group keep their order. */
  lemma OtherLinksKeepOrder(a: seq<string>, b: seq<string>, link: string, url: string)
    ensures OtherLinks(a + b, url) == OtherLinks(a, url) + OtherLinks(b, url)
    ensures OtherLinks([link], url) == if link != url then [link] else []
  {
    FilterConcat(a, b, NotIn([url]));
    FilterSingleton(link, NotIn([url]));
  }

  lemma {:induction false} RemoveKeepsUniqueNames(groups: seq<FocusGroup>, name: string)
    requires UniqueNames(groups)
    ensures UniqueNames(RemoveFocusGroup(groups, name))
    decreases |groups|
  {
    if groups != [] {
      RemoveKeepsUniqueNames(groups[1..], name);
      var keep := (group: FocusGroup) => group.name != name;
      assert RemoveFocusGroup(groups, name) == (if keep(groups[0]) then [groups[0]] else []) + RemoveFocusGroup(groups[1..], name);
      var rest := RemoveFocusGroup(groups[1..], name);
      forall i | 0 <= i < |rest| ensures rest[i].name != groups[0].name {
        var k :| 0 <= k < |groups[1..]| && groups[1..][k] == rest[i];
        assert groups[k + 1] == rest[i];
      }
    }
  }

  /** After `setFocus` at most one group is focusing, and with unique names
      the named group focuses exactly when asked to. After `resetAllFocus`
      none is. */
  lemma SetFocusLeavesOneFocusing(groups: seq<FocusGroup>, name: string, flag: bool)
    ensures SetFocus(groups, name, flag).Ok? ==> AtMostOneFocusing(SetFocus(groups, name, flag).value)
    ensures SetFocus(groups, name, flag).Ok? ==>
      (forall g :: g in SetFocus(groups, name, flag).value && g.isFocusing ==> flag && g.name == name)
    ensures AtMostOneFocusing(ResetAllFocus(groups))
  {
    if SetFocus(groups, name, flag).Ok? {
      var r := SetFocus(groups, name, flag).value;
      forall g | g in r && g.isFocusing ensures flag && g.name == name {
        var j :| 0 <= j < |r| && r[j] == g;
      }
    }
  }

  /** Setting the flag of a group and then clearing everything leaves the
      same groups as clearing straight away. */
  lemma ResetAfterSetFocus(groups: seq<FocusGroup>, name: string, flag: bool)
    requires SetFocus(groups, name, flag).Ok?
    ensures ResetAllFocus(SetFocus(groups, name, flag).value) == ResetAllFocus(groups)
  {
  }

  /** With unique names, a link added to a group is found in the group
      looked up by that name, and is gone again after removing it. */
  lemma AddThenRemoveLink(groups: seq<FocusGroup>, name: string, url: string, newId: string)
    requires UniqueNames(groups)
    ensures var added := AddLinkToFocusGroup(groups, name, url, newId);
      && GetFocusGroupByName(added, name).Some?
      && url in GetFocusGroupByName(added, name).value.links
      && RemoveLinkFromFocusGroup(added, name, url).Ok?
      && GetFocusGroupByName(RemoveLinkFromFocusGroup(added, name, url).value, name).Some?
      && url !in GetFocusGroupByName(RemoveLinkFromFocusGroup(added, name, url).value, name).value.links
  {
    var added := AddLinkToFocusGroup(groups, name, url, newId);
    if HasGroup(groups, name) {
      var i := FindGroup(groups, name).value;
      assert added[i].name == name;
      assert FindGroup(added, name) == Some(i);
      assert added[i].links[|added[i].links| - 1] == url;
    } else {
      assert added[|groups|].name == name;
      assert forall j :: 0 <= j < |groups| ==> added[j] == groups[j];
      assert FindGroup(added, name) == Some(|groups|);
    }
  }
}
