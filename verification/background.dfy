/**
 The navigation handler of src/background/background.ts: when a tab shows
 an `https://` URL, `handleBlockSite`, `handleFocusMode` and
 `handleincognitoBlock` run one after the other, and each may send the tab
 to the blocked page.

 A handler's effect is the number of redirects it issues. An exception
 thrown inside a handler (`new URL` on an unparseable URL, or `isMatch` on a
 pattern whose regular expression does not compile) ends the whole event:
 the redirects already issued stay, the later handlers never run. The tab,
 the clock and the incognito query are parameters.
 */
module Background {
  import opened Wrappers
  import opened Seqs
  import opened JsRegex
  import opened UrlMatcher
  import opened Storage
  import opened Dom

  datatype Outcome = Outcome(redirects: nat, aborted: bool) {
    predicate Redirected() {
      redirects > 0
    }
  }

  const Nothing := Outcome(0, false)

  predicate Matches(url: string, pattern: string) {
    IsMatch(url, pattern) == Ok(true)
  }

  predicate Misses(url: string, pattern: string) {
    IsMatch(url, pattern) == Ok(false)
  }

  /** `patterns.find(p => URLMatcherModel.isMatch(url, p))`, as the index of
      the first pattern that matches; `Err` when `isMatch` throws before a
      match is found. */
  function FindMatch(url: string, patterns: seq<string>): (r: Result<Option<nat>, SyntaxError>)
    ensures r.Ok? && r.value.Some? ==>
      && r.value.value < |patterns|
      && Matches(url, patterns[r.value.value])
      && forall j :: 0 <= j < r.value.value ==> Misses(url, patterns[j])
    ensures r.Ok? && r.value.None? ==> forall j :: 0 <= j < |patterns| ==> Misses(url, patterns[j])
    ensures r.Err? ==> exists j :: 0 <= j < |patterns| && IsMatch(url, patterns[j]).Err?
    decreases |patterns|
  {
    if patterns == [] then Ok(None)
    else
      match IsMatch(url, patterns[0])
      case Err(e) => Err(e)
      case Ok(true) => Ok(Some(0))
      case Ok(false) =>
        var tail := patterns[1..];
        var rest := FindMatch(url, tail);
        assert forall j :: 0 <= j < |tail| ==> tail[j] == patterns[j + 1];
        match rest
        case Err(e) =>
          var j :| 0 <= j < |tail| && IsMatch(url, tail[j]).Err?;
          assert IsMatch(url, patterns[j + 1]).Err?;
          Err(e)
        case Ok(None) => Ok(None)
        case Ok(Some(i)) => Ok(Some(i + 1))
  }

  /** The patterns of a block list, in order. */
  function Urls(sites: seq<BlockSite>): (r: seq<string>)
    ensures |r| == |sites|
    ensures forall i :: 0 <= i < |sites| ==> r[i] == sites[i].url
  {
    Map(sites, (site: BlockSite) => site.url)
  }

  /** `handleBlockSite`: the first stored site whose pattern matches decides;
      it redirects when it has no schedule, or when its schedule says to
      block now. */
  function HandleBlockSite(url: string, blockSites: seq<BlockSite>, now: ClockTime, parse: UrlParser): (o: Outcome)
    requires now.Valid()
    ensures o.redirects <= 1
    ensures parse(url).None? ==> o == Outcome(0, true)
  {
    if parse(url).None? then Outcome(0, true)
    else
      match FindMatch(url, Urls(blockSites))
      case Err(_) => Outcome(0, true)
      case Ok(None) => Nothing
      case Ok(Some(i)) =>
        var site := blockSites[i];
        if site.schedule.None? || ScheduleBlocks(site.schedule.value, now) then Outcome(1, false)
        else Nothing
  }

  /** `handleFocusMode`: one redirect for each focusing group none of whose
      links matches. */
  function HandleFocusMode(url: string, groups: seq<FocusGroup>): (o: Outcome)
    ensures o.redirects <= |groups|
    decreases |groups|
  {
    if groups == [] then Nothing
    else
      var rest := HandleFocusMode(url, groups[1..]);
      if !groups[0].isFocusing then rest
      else
        match FindMatch(url, groups[0].links)
        case Err(_) => Outcome(0, true)
        case Ok(Some(_)) => rest
        case Ok(None) => Outcome(rest.redirects + 1, rest.aborted)
  }

  /** `handleincognitoBlock`: in an incognito window, any matching incognito
      entry redirects. */
  function HandleIncognitoBlock(url: string, inIncognito: bool, sites: seq<BlockSite>): (o: Outcome)
    ensures o.redirects <= 1
    ensures !inIncognito ==> o == Nothing
  {
    if !inIncognito then Nothing
    else
      match FindMatch(url, Urls(sites))
      case Err(_) => Outcome(0, true)
      case Ok(None) => Nothing
      case Ok(Some(_)) => Outcome(1, false)
  }

  /** The `onTabHighlighted` / `onTabNavigateComplete` listeners: the three
      handlers in turn behind the `https://` gate, stopping at the first
      exception. */
  function OnNavigation(url: string, st: BlockStore, groups: seq<FocusGroup>, inIncognito: bool,
                        now: ClockTime, parse: UrlParser): (o: Outcome)
    requires now.Valid()
    ensures !IsValidUrl(url) ==> o == Nothing
  {
    if !IsValidUrl(url) then Nothing
    else
      var a := HandleBlockSite(url, st.blockSites, now, parse);
      if a.aborted then a
      else
        var b := HandleFocusMode(url, groups);
        if b.aborted then Outcome(a.redirects + b.redirects, true)
        else
          var c := HandleIncognitoBlock(url, inIncognito, st.incognitoBlockSites);
          Outcome(a.redirects + b.redirects + c.redirects, c.aborted)
  }

  // ---------------------------------------------------------------------------
  // When each handler blocks, stated without the handlers

  /** No pattern makes `isMatch` throw: none contains `**`. */
  predicate Compilable(patterns: seq<string>) {
    forall k :: 0 <= k < |patterns| ==> !HasDoubleStar(patterns[k])
  }

  /** The first block-list entry matching `url` says to block now. */
  predicate BlockListBlocks(url: string, sites: seq<BlockSite>, now: ClockTime)
    requires now.Valid()
  {
    exists i :: 0 <= i < |sites| && Matches(url, sites[i].url)
      && (forall j :: 0 <= j < i ==> !Matches(url, sites[j].url))
      && (sites[i].schedule.None? || ScheduleBlocks(sites[i].schedule.value, now))
  }

  /** Some focusing group has no link matching `url`. */
  predicate FocusBlocks(url: string, groups: seq<FocusGroup>) {
    exists i :: 0 <= i < |groups| && groups[i].isFocusing
      && forall k :: 0 <= k < |groups[i].links| ==> !Matches(url, groups[i].links[k])
  }

  /** In an incognito window, some incognito entry matches `url`. */
  predicate IncognitoBlocks(url: string, inIncognito: bool, sites: seq<BlockSite>) {
    inIncognito && exists i :: 0 <= i < |sites| && Matches(url, sites[i].url)
  }

  predicate GroupsCompilable(groups: seq<FocusGroup>) {
    forall i :: 0 <= i < |groups| ==> Compilable(groups[i].links)
  }

  /** Compilable patterns never make `find` throw. */
  lemma FindMatchSucceeds(url: string, patterns: seq<string>)
    requires Compilable(patterns)
    ensures FindMatch(url, patterns).Ok?
  {
    if FindMatch(url, patterns).Err? {
      var j :| 0 <= j < |patterns| && IsMatch(url, patterns[j]).Err?;
      IsMatchFailsIff(url, patterns[j]);
    }
  }

  /** `find` locates the first match whenever there is one. */
  lemma FindMatchFinds(url: string, patterns: seq<string>)
    requires Compilable(patterns)
    ensures FindMatch(url, patterns).Ok?
    ensures FindMatch(url, patterns).value.None? <==> forall k :: 0 <= k < |patterns| ==> !Matches(url, patterns[k])
  {
    FindMatchSucceeds(url, patterns);
  }

  lemma BlockSiteDecision(url: string, sites: seq<BlockSite>, now: ClockTime, parse: UrlParser)
    requires now.Valid()
    requires parse(url).Some? && Compilable(Urls(sites))
    ensures !HandleBlockSite(url, sites, now, parse).aborted
    ensures HandleBlockSite(url, sites, now, parse).Redirected() <==> BlockListBlocks(url, sites, now)
  {
    FindMatchSucceeds(url, Urls(sites));
    match FindMatch(url, Urls(sites)).value
    case None =>
      assert !BlockListBlocks(url, sites, now) by {
        forall i | 0 <= i < |sites| ensures !Matches(url, sites[i].url) {
          assert Misses(url, Urls(sites)[i]);
        }
      }
    case Some(i) =>
      FirstMatchOf(url, sites, i);
      if BlockListBlocks(url, sites, now) {
        var k :| 0 <= k < |sites| && Matches(url, sites[k].url)
          && (forall j :: 0 <= j < k ==> !Matches(url, sites[j].url))
          && (sites[k].schedule.None? || ScheduleBlocks(sites[k].schedule.value, now));
        SameFirstMatch(url, sites, i, k);
      }
  }

  /** The entry `find` returns matches, and none before it does. */
  lemma FirstMatchOf(url: string, sites: seq<BlockSite>, i: nat)
    requires FindMatch(url, Urls(sites)) == Ok(Some(i))
    ensures i < |sites| && Matches(url, sites[i].url)
    ensures forall j :: 0 <= j < i ==> !Matches(url, sites[j].url)
  {
    assert Matches(url, Urls(sites)[i]);
    forall j | 0 <= j < i ensures !Matches(url, sites[j].url) {
      assert Misses(url, Urls(sites)[j]);
    }
  }

  /** There is only one first match. */
  lemma SameFirstMatch(url: string, sites: seq<BlockSite>, i: nat, k: nat)
    requires i < |sites| && Matches(url, sites[i].url) && forall j :: 0 <= j < i ==> !Matches(url, sites[j].url)
    requires k < |sites| && Matches(url, sites[k].url) && forall j :: 0 <= j < k ==> !Matches(url, sites[j].url)
    ensures i == k
  {
  }

  /** Only the first matching entry counts: the handler behaves as if the
      list held that entry alone. */
  lemma FirstMatchDecides(url: string, sites: seq<BlockSite>, i: nat, now: ClockTime, parse: UrlParser)
    requires now.Valid()
    requires i < |sites| && Matches(url, sites[i].url)
    requires forall j :: 0 <= j < i ==> Misses(url, sites[j].url)
    ensures HandleBlockSite(url, sites, now, parse) == HandleBlockSite(url, [sites[i]], now, parse)
  {
    var ps := Urls(sites);
    FirstMatchIndex(url, ps, i);
    assert Urls([sites[i]]) == [sites[i].url];
    assert FindMatch(url, [sites[i].url]) == Ok(Some(0));
  }

  lemma {:induction false} FirstMatchIndex(url: string, patterns: seq<string>, i: nat)
    requires i < |patterns| && Matches(url, patterns[i])
    requires forall j :: 0 <= j < i ==> Misses(url, patterns[j])
    ensures FindMatch(url, patterns) == Ok(Some(i))
    decreases i
  {
    if i > 0 {
      var tail := patterns[1..];
      assert Misses(url, patterns[0]);
      assert tail[i - 1] == patterns[i];
      assert forall j :: 0 <= j < i - 1 ==> Misses(url, tail[j]) by {
        forall j | 0 <= j < i - 1 ensures Misses(url, tail[j]) {
          assert tail[j] == patterns[j + 1];
        }
      }
      FirstMatchIndex(url, tail, i - 1);
    }
  }

  /** A list of groups blocks when its first group does or the rest do. */
  lemma FocusBlocksCons(url: string, groups: seq<FocusGroup>)
    requires groups != []
    ensures FocusBlocks(url, groups) <==>
      (groups[0].isFocusing && forall k :: 0 <= k < |groups[0].links| ==> !Matches(url, groups[0].links[k]))
      || FocusBlocks(url, groups[1..])
  {
    var tail := groups[1..];
    if FocusBlocks(url, tail) {
      var i :| 0 <= i < |tail| && tail[i].isFocusing
        && forall k :: 0 <= k < |tail[i].links| ==> !Matches(url, tail[i].links[k]);
      assert groups[i + 1] == tail[i];
    }
    if FocusBlocks(url, groups) {
      var i :| 0 <= i < |groups| && groups[i].isFocusing
        && forall k :: 0 <= k < |groups[i].links| ==> !Matches(url, groups[i].links[k]);
      if i > 0 { assert tail[i - 1] == groups[i]; }
    }
  }

  lemma {:induction false} FocusModeDecision(url: string, groups: seq<FocusGroup>)
    requires GroupsCompilable(groups)
    ensures !HandleFocusMode(url, groups).aborted
    ensures HandleFocusMode(url, groups).Redirected() <==> FocusBlocks(url, groups)
    decreases |groups|
  {
    if groups != [] {
      var tail := groups[1..];
      assert GroupsCompilable(tail) by {
        forall i | 0 <= i < |tail| ensures Compilable(tail[i].links) {
          assert tail[i] == groups[i + 1];
        }
      }
      FocusModeDecision(url, tail);
      assert Compilable(groups[0].links);
      FindMatchFinds(url, groups[0].links);
      FocusBlocksCons(url, groups);
    }
  }

  /** Groups that are not focusing have no effect on focus mode. */
  lemma {:induction false} NonFocusingGroupsIgnored(url: string, groups: seq<FocusGroup>, g: FocusGroup)
    requires !g.isFocusing
    ensures HandleFocusMode(url, [g] + groups) == HandleFocusMode(url, groups)
  {
    assert ([g] + groups)[1..] == groups;
  }

  /** A focusing group without links blocks every URL, unless an earlier
      group's pattern throws first. */
  lemma {:induction false} EmptyFocusGroupBlocks(url: string, groups: seq<FocusGroup>, i: nat)
    requires i < |groups| && groups[i].isFocusing && groups[i].links == []
    requires GroupsCompilable(groups)
    ensures HandleFocusMode(url, groups).Redirected()
  {
    FocusModeDecision(url, groups);
    assert FocusBlocks(url, groups);
  }

  lemma IncognitoDecision(url: string, inIncognito: bool, sites: seq<BlockSite>)
    requires Compilable(Urls(sites))
    ensures !HandleIncognitoBlock(url, inIncognito, sites).aborted
    ensures HandleIncognitoBlock(url, inIncognito, sites).Redirected() <==> IncognitoBlocks(url, inIncognito, sites)
  {
    if inIncognito {
      FindMatchFinds(url, Urls(sites));
      if IncognitoBlocks(url, inIncognito, sites) {
        var i :| 0 <= i < |sites| && Matches(url, sites[i].url);
        assert Matches(url, Urls(sites)[i]);
      } else {
        assert forall k :: 0 <= k < |sites| ==> !Matches(url, Urls(sites)[k]);
      }
    }
  }

  /** The navigation decision: for an https URL that parses and stored
      patterns that compile, the tab is redirected exactly when the block
      list, a focus group or the incognito list says so. The handlers are
      independent: a URL a focus group allows is still blocked by a
      matching block-list entry. */
  lemma NavigationDecision(url: string, st: BlockStore, groups: seq<FocusGroup>, inIncognito: bool,
                           now: ClockTime, parse: UrlParser)
    requires now.Valid()
    requires IsValidUrl(url) && parse(url).Some?
    requires Compilable(Urls(st.blockSites)) && Compilable(Urls(st.incognitoBlockSites))
    requires GroupsCompilable(groups)
    ensures !OnNavigation(url, st, groups, inIncognito, now, parse).aborted
    ensures OnNavigation(url, st, groups, inIncognito, now, parse).Redirected() <==>
      || BlockListBlocks(url, st.blockSites, now)
      || FocusBlocks(url, groups)
      || IncognitoBlocks(url, inIncognito, st.incognitoBlockSites)
  {
    BlockSiteDecision(url, st.blockSites, now, parse);
    FocusModeDecision(url, groups);
    IncognitoDecision(url, inIncognito, st.incognitoBlockSites);
  }

  /** An https URL that `new URL` rejects ends the event in `handleBlockSite`:
      neither focus mode nor the incognito list is consulted. */
  lemma UnparseableUrlStops(url: string, st: BlockStore, groups: seq<FocusGroup>, inIncognito: bool,
                            now: ClockTime, parse: UrlParser)
    requires now.Valid()
    requires IsValidUrl(url) && parse(url).None?
    ensures OnNavigation(url, st, groups, inIncognito, now, parse) == Outcome(0, true)
  {
  }
}
