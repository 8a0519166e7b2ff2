/**
 * The aggregation pass of backend/getFeedContent.go, after the network fetch:
 * flatten the items of the feeds that parsed, sort them newest first, derive
 * each item's display fields and join its read flag from the history table.
 *
 * The fetch is an input: one entry per configured feed, None where gofeed
 * failed (which the source skips).  `url.Parse(feed.Link).Host`, the clock and
 * `time.Format` are parameters.
 */
module FeedContent {
  import opened Wrappers
  import opened Sorting
  import opened History

  /** The fields of a gofeed item the pass reads; `image` is item.Image's URL
      (None for a nil Image) and `published` is PublishedParsed in nanoseconds. */
  datatype Item = Item(title: string, link: string, content: string, image: Option<string>, published: int)

  /** A parsed feed; `image` is feed.Image's URL, None for a nil Image. */
  datatype Feed = Feed(title: string, link: string, image: Option<string>, items: seq<Item>)

  /** FeedOriginContentsInfo: an item tagged with its feed's title and badge. */
  datatype Origin = Origin(title: string, image: string, item: Item)

  const FaviconService := "https://www.google.com/s2/favicons?sz=16&domain="

  // ---------------------------------------------------------------------------
  // getTimeSince

  /** time.Duration units, in nanoseconds. */
  const Minute: nat := 60_000_000_000
  const HourNs: nat := 60 * Minute
  const DayNs: nat := 24 * HourNs
  const YearNs: nat := 365 * DayNs

  datatype Unit = Minutes | Hours | Days | Years

  function UnitLength(u: Unit): nat
  {
    match u
    case Minutes => Minute
    case Hours => HourNs
    case Days => DayNs
    case Years => YearNs
  }

  function UnitName(u: Unit): string
  {
    match u
    case Minutes => "minute"
    case Hours => "hour"
    case Days => "day"
    case Years => "year"
  }

  datatype RelativeTime = Now | Ago(count: nat, unit: Unit)

  /** The bucket getTimeSince picks for an elapsed duration: int() of
      Minutes(), of Hours(), of Hours()/24 or of Hours()/8760. */
  function Bucket(elapsed: int): RelativeTime
  {
    // The thresholds and divisors are one hour, one day, 365 days and one
    // minute in nanoseconds, written out.
    if elapsed <= 0 then Now
    else if elapsed < 3_600_000_000_000 then Ago(elapsed / 60_000_000_000, Minutes)
    else if elapsed < 86_400_000_000_000 then Ago(elapsed / 3_600_000_000_000, Hours)
    else if elapsed < 31_536_000_000_000_000 then Ago((elapsed / 3_600_000_000_000) / 24, Days)
    else Ago((elapsed / 3_600_000_000_000) / 8760, Years)
  }

  /** "now" unless time has passed; otherwise the largest unit whose
      threshold is reached, counting whole units. */
  lemma BucketIsLargestUnit(elapsed: int)
    ensures Bucket(elapsed) == Now <==> elapsed <= 0
    ensures Bucket(elapsed).Ago? ==>
      Bucket(elapsed).count * UnitLength(Bucket(elapsed).unit) <= elapsed < (Bucket(elapsed).count + 1) * UnitLength(Bucket(elapsed).unit)
    ensures 0 < elapsed < HourNs ==> Bucket(elapsed).Ago? && Bucket(elapsed).unit == Minutes && Bucket(elapsed).count <= 59
    ensures HourNs <= elapsed < 24 * HourNs ==> Bucket(elapsed).Ago? && Bucket(elapsed).unit == Hours && 1 <= Bucket(elapsed).count <= 23
    ensures 24 * HourNs <= elapsed < 365 * 24 * HourNs ==> Bucket(elapsed).Ago? && Bucket(elapsed).unit == Days && 1 <= Bucket(elapsed).count <= 364
    ensures 365 * 24 * HourNs <= elapsed ==> Bucket(elapsed).Ago? && Bucket(elapsed).unit == Years && Bucket(elapsed).count >= 1
  {
    if 24 * HourNs <= elapsed {
      var hours := elapsed / HourNs;
      assert hours * HourNs <= elapsed < (hours + 1) * HourNs;
    }
  }

  function DigitChar(d: nat): (c: char)
    requires d < 10
    ensures '0' <= c <= '9'
  {
    "0123456789"[d]
  }

  /** fmt's %d of a non-negative int. */
  function Decimal(n: nat): string
  {
    if n < 10 then [DigitChar(n)] else Decimal(n / 10) + [DigitChar(n % 10)]
  }

  /** `%d` of a count is a non-empty run of decimal digits. */
  lemma {:induction false} DecimalDigits(n: nat)
    ensures |Decimal(n)| >= 1 && forall i :: 0 <= i < |Decimal(n)| ==> '0' <= Decimal(n)[i] <= '9'
  {
    if n >= 10 {
      DecimalDigits(n / 10);
    }
  }

  /** The number a run of decimal digits denotes. */
  function DigitsValue(s: string): int
  {
    if s == [] then 0 else 10 * DigitsValue(s[..|s| - 1]) + (s[|s| - 1] as int - '0' as int)
  }

  /** `%d` spells the count itself, with no leading zero. */
  lemma {:induction false} DecimalValue(n: nat)
    ensures DigitsValue(Decimal(n)) == n
    ensures n > 0 ==> Decimal(n)[0] != '0'
    ensures n >= 10 ==> Decimal(n)[0] == Decimal(n / 10)[0]
  {
    var d := n % 10;
    assert DigitChar(d) as int - '0' as int == d by {
      assert "0123456789"[d] as int - '0' as int == d by {
        if d == 0 {} else if d == 1 {} else if d == 2 {} else if d == 3 {} else if d == 4 {}
        else if d == 5 {} else if d == 6 {} else if d == 7 {} else if d == 8 {} else {}
      }
    }
    if n >= 10 {
      DecimalValue(n / 10);
      var s := Decimal(n);
      assert s[..|s| - 1] == Decimal(n / 10);
    } else {
      assert n % 10 == n;
    }
  }

  /** "%d minute ago" when the count is one, "%d minutes ago" otherwise. */
  function Phrase(count: nat, unit: Unit): string
  {
    Decimal(count) + " " + UnitName(unit) + (if count == 1 then "" else "s") + " ago"
  }

  /** The phrase ends in " ago" and is plural exactly when the count is not one. */
  lemma PhrasePlural(count: nat, unit: Unit)
    ensures var r := Phrase(count, unit);
      |r| > 5 && r[|r| - 4..] == " ago" && (r[|r| - 5..] == "s ago" <==> count != 1)
  {
    var words := Decimal(count) + " " + UnitName(unit);
    var r := Phrase(count, unit);
    assert r == words + (if count == 1 then "" else "s") + " ago";
    assert r[|r| - 4..] == " ago";
    assert words[|words| - 1] != 's';
    assert r[|r| - 5..] == (if count == 1 then [words[|words| - 1]] else "s") + " ago";
    assert r[|r| - 5..][0] == if count == 1 then words[|words| - 1] else 's';
  }

  function TimeSince(elapsed: int): string
  {
    match Bucket(elapsed)
    case Now => "now"
    case Ago(count, unit) => Phrase(count, unit)
  }

  /** "now" exactly when no time has passed; otherwise a phrase ending in
      " ago", plural exactly when the count of its unit is not one. */
  lemma TimeSinceShape(elapsed: int)
    ensures TimeSince(elapsed) == "now" <==> elapsed <= 0
    ensures elapsed > 0 ==> Bucket(elapsed).Ago? && var r := TimeSince(elapsed);
      |r| > 5 && r[|r| - 4..] == " ago" && (r[|r| - 5..] == "s ago" <==> Bucket(elapsed).count != 1)
  {
    BucketIsLargestUnit(elapsed);
    if elapsed > 0 {
      PhrasePlural(Bucket(elapsed).count, Bucket(elapsed).unit);
    }
  }

  /** Up to an hour, whole minutes: 59s is "0 minutes ago", 60s "1 minute ago". */
  lemma MinuteBoundary()
    ensures TimeSince(0) == "now"
    ensures TimeSince(59_000_000_000) == "0 minutes ago"
    ensures TimeSince(60_000_000_000) == "1 minute ago"
  {
    assert Bucket(59_000_000_000) == Ago(0, Minutes);
    assert Bucket(60_000_000_000) == Ago(1, Minutes);
  }

  /** 23h59m is still counted in hours. */
  lemma HourBoundary()
    ensures TimeSince(23 * HourNs + 59 * Minute) == "23 hours ago"
  {
    assert Bucket(23 * HourNs + 59 * Minute) == Ago(23, Hours);
    assert Decimal(23) == "23" by { assert Decimal(2) == "2"; }
  }

  /** 25h is "1 day ago". */
  lemma DayBoundary()
    ensures TimeSince(25 * HourNs) == "1 day ago"
  {
    assert Bucket(25 * HourNs) == Ago(1, Days);
  }

  /** 400 days is "1 year ago". */
  lemma YearBoundary()
    ensures TimeSince(400 * DayNs) == "1 year ago"
  {
    assert Bucket(400 * DayNs) == Ago(1, Years);
  }

  // ---------------------------------------------------------------------------
  // filterImage: the first match of `img[^>]*src="([^"]*)`

  ghost predicate ImgAt(s: string, i: int)
  {
    0 <= i && i + 3 <= |s| && s[i..i + 3] == "img"
  }

  predicate SrcAt(s: string, j: int)
  {
    0 <= j && j + 5 <= |s| && s[j..j + 5] == "src=\""
  }

  ghost predicate NoGt(s: string, a: int, b: int)
  {
    0 <= a <= b <= |s| && forall k :: a <= k < b ==> s[k] != '>'
  }

  /** The regex matches from i with its `[^>]*` ending at j. */
  ghost predicate RegexMatch(s: string, i: int, j: int)
  {
    ImgAt(s, i) && NoGt(s, i + 3, j) && SrcAt(s, j)
  }

  /** The match RE2 reports: the leftmost start, and for it the greedy
      `[^>]*`, i.e. the last `src="` before the next '>'. */
  ghost predicate PreferredMatch(s: string, i: int, j: int)
  {
    && RegexMatch(s, i, j)
    && (forall i', j' :: 0 <= i' < i ==> !RegexMatch(s, i', j'))
    && (forall j' :: j < j' ==> !RegexMatch(s, i, j'))
  }

  /** The greedy `[^"]*`: the first '"' at or after k, or the end. */
  function QuoteFreeEnd(s: string, k: nat): (e: nat)
    requires k <= |s|
    ensures k <= e <= |s|
    ensures forall m :: k <= m < e ==> s[m] != '"'
    ensures e < |s| ==> s[e] == '"'
    decreases |s| - k
  {
    if k == |s| || s[k] == '"' then k else QuoteFreeEnd(s, k + 1)
  }

  /** The last `src="` at or after p with no '>' between k and it. */
  function LastSrc(s: string, k: nat, p: nat): (r: Option<nat>)
    requires k <= p <= |s| && NoGt(s, k, p)
    ensures r.Some? ==> p <= r.value && NoGt(s, k, r.value) && SrcAt(s, r.value)
    decreases |s| - p
  {
    if p == |s| || s[p] == '>' then None
    else
      match LastSrc(s, k, p + 1)
      case Some(j) => Some(j)
      case None => if SrcAt(s, p) then Some(p) else None
  }

  /** No `src="` lies past the one LastSrc picks before the next '>', and
      none at all from p when it picks nothing. */
  lemma {:induction false} LastSrcIsLast(s: string, k: nat, p: nat)
    requires k <= p <= |s| && NoGt(s, k, p)
    ensures LastSrc(s, k, p).Some? ==> forall j :: LastSrc(s, k, p).value < j && NoGt(s, k, j) ==> !SrcAt(s, j)
    ensures LastSrc(s, k, p).None? ==> forall j :: p <= j && NoGt(s, k, j) ==> !SrcAt(s, j)
    decreases |s| - p
  {
    if p < |s| && s[p] != '>' {
      LastSrcIsLast(s, k, p + 1);
    }
  }

  /** The leftmost start at or after i from which the regex matches, and the
      greedy end of its `[^>]*`. */
  function FindMatch(s: string, i: nat): (r: Option<(nat, nat)>)
    ensures r.Some? ==> i <= r.value.0 && RegexMatch(s, r.value.0, r.value.1)
    ensures r.Some? ==> forall i', j' :: i <= i' < r.value.0 ==> !RegexMatch(s, i', j')
    ensures r.Some? ==> forall j' :: r.value.1 < j' ==> !RegexMatch(s, r.value.0, j')
    ensures r.None? ==> forall i', j' :: i <= i' ==> !RegexMatch(s, i', j')
    decreases |s| - i
  {
    if i + 3 > |s| then None
    else
      LastSrcIsLast(s, i + 3, i + 3);
      if s[i..i + 3] == "img" && LastSrc(s, i + 3, i + 3).Some? then
        Some((i, LastSrc(s, i + 3, i + 3).value))
      else
        FindMatch(s, i + 1)
  }

  /** The capture group of the preferred match, or nil when nothing matches. */
  function FilterImage(content: string): Option<string>
  {
    match FindMatch(content, 0)
    case None => None
    case Some((i, j)) => Some(content[j + 5..QuoteFreeEnd(content, j + 5)])
  }

  /** FilterImage is nil exactly when the expression matches nowhere, and
      otherwise returns the capture of the match RE2 prefers. */
  lemma FilterImageIsPreferredMatch(content: string)
    ensures FilterImage(content).None? <==> forall i, j :: !RegexMatch(content, i, j)
    ensures FilterImage(content).Some? ==>
      exists i, j :: PreferredMatch(content, i, j) && FilterImage(content).value == content[j + 5..QuoteFreeEnd(content, j + 5)]
  {
    match FindMatch(content, 0)
    case None =>
    case Some((i, j)) =>
      assert PreferredMatch(content, i, j);
  }

  // ---------------------------------------------------------------------------
  // Per-item display fields

  /** The item's own image URL, else the first image source in its content,
      else the empty string. */
  function DisplayImage(item: Item): string
  {
    var filterImageUrl := FilterImage(item.content);
    if item.image.Some? then item.image.value
    else if filterImageUrl.Some? then filterImageUrl.value
    else ""
  }

  /** The item image wins; without one, the first content image, and the
      empty string only when the content has none. */
  lemma DisplayImageChoice(item: Item)
    ensures item.image.Some? ==> DisplayImage(item) == item.image.value
    ensures item.image.None? && (forall i, j :: !RegexMatch(item.content, i, j)) ==> DisplayImage(item) == ""
    ensures item.image.None? && FilterImage(item.content).Some? ==> DisplayImage(item) == FilterImage(item.content).value
    ensures item.image.None? && DisplayImage(item) != "" ==>
      exists i, j :: PreferredMatch(item.content, i, j) && DisplayImage(item) == item.content[j + 5..QuoteFreeEnd(item.content, j + 5)]
  {
    FilterImageIsPreferredMatch(item.content);
  }

  /** The feed's badge: its image URL, else the favicon service's icon for its host. */
  function Badge(feed: Feed, host: string): string
  {
    if feed.image.Some? then feed.image.value else FaviconService + host
  }

  function OriginsOf(feed: Feed, host: string): (os: seq<Origin>)
    ensures |os| == |feed.items|
    ensures forall k :: 0 <= k < |os| ==> os[k] == Origin(feed.title, Badge(feed, host), feed.items[k])
  {
    seq(|feed.items|, k requires 0 <= k < |feed.items| => Origin(feed.title, Badge(feed, host), feed.items[k]))
  }

  /** Everything the first loop appends, feed by feed, skipping failed feeds. */
  function Flatten(fetched: seq<Option<Feed>>, hostOf: string -> string): seq<Origin>
    decreases |fetched|
  {
    if fetched == [] then []
    else
      var last := fetched[|fetched| - 1];
      Flatten(fetched[..|fetched| - 1], hostOf) +
        (if last.Some? then OriginsOf(last.value, hostOf(last.value.link)) else [])
  }

  lemma FlattenStep(fetched: seq<Option<Feed>>, hostOf: string -> string, f: nat)
    requires f < |fetched|
    ensures Flatten(fetched[..f + 1], hostOf) == Flatten(fetched[..f], hostOf) +
      (if fetched[f].Some? then OriginsOf(fetched[f].value, hostOf(fetched[f].value.link)) else [])
  {
    assert fetched[..f + 1][..f] == fetched[..f];
  }

  /** `o` is the entry gathered for item `k` of feed `f`, a feed that parsed:
      the item tagged with its feed's title and badge. */
  predicate EntryOf(fetched: seq<Option<Feed>>, hostOf: string -> string, f: int, k: int, o: Origin)
  {
    0 <= f < |fetched| && fetched[f].Some? && 0 <= k < |fetched[f].value.items| &&
    o == Origin(fetched[f].value.title, Badge(fetched[f].value, hostOf(fetched[f].value.link)), fetched[f].value.items[k])
  }

  /** Every gathered entry comes from an item of a feed that parsed. */
  lemma {:induction false} FlattenOnlyParsedItems(fetched: seq<Option<Feed>>, hostOf: string -> string, o: Origin)
    requires o in Flatten(fetched, hostOf)
    ensures exists f, k :: EntryOf(fetched, hostOf, f, k, o)
    decreases |fetched|
  {
    var n := |fetched| - 1;
    var init := fetched[..n];
    if o in Flatten(init, hostOf) {
      FlattenOnlyParsedItems(init, hostOf, o);
      var f, k :| EntryOf(init, hostOf, f, k, o);
      assert fetched[f] == init[f];
      assert EntryOf(fetched, hostOf, f, k, o);
    } else {
      var feed := fetched[n].value;
      var os := OriginsOf(feed, hostOf(feed.link));
      var k :| 0 <= k < |os| && os[k] == o;
      assert EntryOf(fetched, hostOf, n, k, o);
    }
  }

  /** Every item of every feed that parsed is gathered. */
  lemma {:induction false} FlattenHasParsedItems(fetched: seq<Option<Feed>>, hostOf: string -> string, f: nat, k: nat)
    requires f < |fetched| && fetched[f].Some? && k < |fetched[f].value.items|
    ensures Origin(fetched[f].value.title, Badge(fetched[f].value, hostOf(fetched[f].value.link)), fetched[f].value.items[k])
      in Flatten(fetched, hostOf)
    decreases |fetched|
  {
    var n := |fetched| - 1;
    var init := fetched[..n];
    if f < n {
      assert init[f] == fetched[f];
      FlattenHasParsedItems(init, hostOf, f, k);
    } else {
      var feed := fetched[n].value;
      assert OriginsOf(feed, hostOf(feed.link))[k] in OriginsOf(feed, hostOf(feed.link));
    }
  }

  /** One entry per item of each feed that parsed, each tagged with its feed's
      title and badge (the feed image, else the favicon of the feed's host);
      nothing else.  Feeds that failed contribute nothing. */
  lemma FlattenIsAllParsedItems(fetched: seq<Option<Feed>>, hostOf: string -> string, o: Origin)
    ensures o in Flatten(fetched, hostOf) <==> exists f, k :: EntryOf(fetched, hostOf, f, k, o)
  {
    if o in Flatten(fetched, hostOf) {
      FlattenOnlyParsedItems(fetched, hostOf, o);
    } else {
      forall f, k
        ensures !EntryOf(fetched, hostOf, f, k, o)
      {
        if EntryOf(fetched, hostOf, f, k, o) {
          FlattenHasParsedItems(fetched, hostOf, f, k);
        }
      }
    }
  }

  /** The record GetFeedContent emits for an item, given its relative and
      formatted times, with the read flag joined from the history. */
  function Joined(o: Origin, timeSince: string, time: string, store: HistoryStore): (r: FeedContentsInfo)
    reads store
    ensures r.readed <==> o.item.link in store.rows && store.rows[o.item.link].readed
    ensures r.link == o.item.link && r.title == o.item.title && r.content == o.item.content
    ensures r.image == DisplayImage(o.item) && r.timeSince == timeSince && r.time == time
    ensures r.feedTitle == o.title && r.feedImage == o.image
  {
    var info := FeedContentsInfo(o.title, o.image, o.item.title, o.item.link, timeSince, time,
                                 DisplayImage(o.item), o.item.content, false);
    if store.CheckInHistory(info) then info.(readed := store.GetHistoryReaded(info)) else info
  }

  /** The record for an item `now` nanoseconds into the epoch of `published`. */
  function Normalise(o: Origin, now: int, format: int -> string, store: HistoryStore): FeedContentsInfo
    reads store
  {
    Joined(o, TimeSince(now - o.item.published), format(o.item.published), store)
  }

  /** The comparator of the sort: `PublishedParsed.After`. */
  predicate After(x: Origin, y: Origin)
  {
    x.item.published > y.item.published
  }

  lemma AfterIsStrictWeakOrder()
    ensures StrictWeakOrder(After)
  {
  }

  /** The first loop of GetFeedContent: every item of every feed that parsed,
      tagged with its feed's title and badge, in feed order. */
  method CollectOrigins(fetched: seq<Option<Feed>>, hostOf: string -> string)
    returns (feedOriginContent: seq<Origin>)
    ensures feedOriginContent == Flatten(fetched, hostOf)
  {
    feedOriginContent := [];
    for f := 0 to |fetched|
      invariant feedOriginContent == Flatten(fetched[..f], hostOf)
    {
      FlattenStep(fetched, hostOf, f);
      if fetched[f].None? {
        continue;
      }
      var feed := fetched[f].value;
      ghost var before := feedOriginContent;
      ghost var os := OriginsOf(feed, hostOf(feed.link));
      for k := 0 to |feed.items|
        invariant feedOriginContent == before + os[..k]
      {
        var u := hostOf(feed.link);
        var imageUrl := FaviconService + u;
        if feed.image.Some? {
          imageUrl := feed.image.value;
        }
        feedOriginContent := feedOriginContent + [Origin(feed.title, imageUrl, feed.items[k])];
        assert os[..k + 1] == os[..k] + [os[k]];
      }
      assert os[..|feed.items|] == os;
    }
    assert fetched[..|fetched|] == fetched;
  }

  /** The `sort.Slice` call: newest first, by publication time. */
  method SortNewestFirst(origins: seq<Origin>) returns (sorted: seq<Origin>)
    ensures multiset(sorted) == multiset(origins)
    ensures forall i, j :: 0 <= i < j < |sorted| ==> sorted[i].item.published >= sorted[j].item.published
  {
    var a := new Origin[|origins|](i requires 0 <= i < |origins| => origins[i]);
    assert a[..] == origins;
    AfterIsStrictWeakOrder();
    SortSlice(a, After);
    sorted := a[..];
    forall i, j | 0 <= i < j < |sorted|
      ensures sorted[i].item.published >= sorted[j].item.published
    {
      assert !After(sorted[j], sorted[i]);
    }
  }

  /** The body of the second loop after the times are computed: the image
      choice, the record and the history join. */
  method NormaliseItem(item: Origin, timeSinceStr: string, time: string, store: HistoryStore)
    returns (feedContentItem: FeedContentsInfo)
    ensures feedContentItem == Joined(item, timeSinceStr, time, store)
  {
    var imageURL := "";
    var filterImageUrl := FilterImage(item.item.content);
    if item.item.image.Some? {
      imageURL := item.item.image.value;
    } else if filterImageUrl.Some? {
      imageURL := filterImageUrl.value;
    }
    feedContentItem := FeedContentsInfo(item.title, item.image, item.item.title, item.item.link,
                                        timeSinceStr, time, imageURL, item.item.content, false);
    if store.CheckInHistory(feedContentItem) {
      feedContentItem := feedContentItem.(readed := store.GetHistoryReaded(feedContentItem));
    }
  }

  /** One pass of the second loop: the phrase for the item's age, then its record. */
  method NormaliseOne(item: Origin, now: int, format: int -> string, store: HistoryStore)
    returns (feedContentItem: FeedContentsInfo)
    ensures feedContentItem == Normalise(item, now, format, store)
  {
    var timeSinceStr := TimeSince(now - item.item.published);
    feedContentItem := NormaliseItem(item, timeSinceStr, format(item.item.published), store);
  }

  /** The second loop of GetFeedContent: one record per item, in order. */
  method NormaliseAll(sorted: seq<Origin>, now: int, format: int -> string, store: HistoryStore)
    returns (feedContent: seq<FeedContentsInfo>)
    ensures |feedContent| == |sorted|
    ensures forall i :: 0 <= i < |sorted| ==> feedContent[i] == Normalise(sorted[i], now, format, store)
  {
    feedContent := [];
    for i := 0 to |sorted|
      invariant |feedContent| == i
      invariant forall m :: 0 <= m < i ==> feedContent[m] == Normalise(sorted[m], now, format, store)
    {
      var feedContentItem := NormaliseOne(sorted[i], now, format, store);
      feedContent := feedContent + [feedContentItem];
    }
  }

  /** GetFeedContent after the fetch.  `order` is the order the unstable sort
      happened to produce: a permutation of the flattened items, newest first. */
  method GetFeedContent(fetched: seq<Option<Feed>>, hostOf: string -> string, format: int -> string,
                        now: int, store: HistoryStore)
    returns (feedContent: seq<FeedContentsInfo>, ghost order: seq<Origin>)
    ensures multiset(order) == multiset(Flatten(fetched, hostOf))
    ensures forall i, j :: 0 <= i < j < |order| ==> order[i].item.published >= order[j].item.published
    ensures |feedContent| == |order|
    ensures forall i :: 0 <= i < |order| ==> feedContent[i] == Normalise(order[i], now, format, store)
  {
    var feedOriginContent := CollectOrigins(fetched, hostOf);
    var sorted := SortNewestFirst(feedOriginContent);
    order := sorted;
    feedContent := NormaliseAll(sorted, now, format, store);
  }
}
