/** `YarnVersionService`: Yarn mapping versions are texts such as
    `1.21.8+build.1`, a base-version identifier, a `+`, and a build. They are
    listed from the Maven metadata in feed order (oldest first) and served
    newest first, filtered by base version and by the release status of that
    base version. The catalog lookup is the list `vs` of the catalog. */
module Yarn {
  import opened Wrappers
  import JavaString
  import Catalog
  import Streams
  import Upstream
  import TtlCache

  /** The identifier a Yarn version names: the text before the first `+` when
      that `+` is not the first character, else the whole text. */
  function BaseId(s: string): (r: string)
    ensures '+' !in s ==> r == s
    ensures '+' in s && s[0] != '+' ==> '+' !in r && 0 < |r| < |s| && s == r + "+" + s[|r| + 1..]
    ensures |s| > 0 && s[0] == '+' ==> r == s
  {
    var plus := Streams.IndexOf(s, '+');
    if plus > 0 then s[..plus] else s
  }

  /** `toMinecraftVersion`: the catalog entry named by the base identifier. */
  function BaseVersion(vs: seq<Catalog.Version>, s: string): (r: Option<Catalog.Version>)
    ensures r.Some? ==> r.value in vs && r.value.id == BaseId(s)
    ensures r.None? <==> forall j :: 0 <= j < |vs| ==> vs[j].id != BaseId(s)
    ensures r.Some? ==> exists i :: 0 <= i < |vs| && vs[i] == r.value && forall j :: 0 <= j < i ==> vs[j].id != BaseId(s)
  {
    Catalog.FromId(vs, BaseId(s))
  }

  /** The filter of `listAllVersions(p)`: pre-releases are requested, or the
      version names a base version that is a release. */
  function Included(vs: seq<Catalog.Version>, p: bool): string -> bool {
    (x: string) => p || (BaseVersion(vs, x).Some? && BaseVersion(vs, x).value.IsRelease())
  }

  /** The first filter of `listVersionsFor(mc, p)`: the version names `mc`. */
  function OverBase(vs: seq<Catalog.Version>, mc: Catalog.Version): string -> bool {
    (x: string) => BaseVersion(vs, x) == Some(mc)
  }

  /** The second filter of `listVersionsFor(mc, p)`: it does not look at the
      version at all, only at the flag and at `mc`. */
  function ReleaseGate(mc: Catalog.Version, p: bool): string -> bool {
    (x: string) => p || mc.IsRelease()
  }

  /** `listAllVersions(p)`: the included feed entries, newest first. */
  function ListAll(vs: seq<Catalog.Version>, feed: seq<string>, p: bool): (r: seq<string>)
    ensures |r| <= |feed|
    ensures forall i :: 0 <= i < |r| ==> r[i] in feed && Included(vs, p)(r[i])
    ensures forall i :: 0 <= i < |feed| && Included(vs, p)(feed[i]) ==> feed[i] in r
  {
    Streams.ReversedFilter(feed, Included(vs, p));
    Streams.Reverse(Streams.Filter(feed, Included(vs, p)))
  }

  /** A further feed entry, when included, comes first: with ListAll of the
      empty feed being empty, the listing is the included entries from the
      newest to the oldest, for either flag. */
  lemma ListAllSnoc(vs: seq<Catalog.Version>, feed: seq<string>, x: string, p: bool)
    ensures ListAll(vs, feed + [x], p) == (if Included(vs, p)(x) then [x] else []) + ListAll(vs, feed, p)
  {
    Streams.FilterSnoc(feed, x, Included(vs, p));
    ReverseSnoc(Streams.Filter(feed, Included(vs, p)), x);
  }

  lemma ReverseSnoc(s: seq<string>, x: string)
    ensures Streams.Reverse(s + [x]) == [x] + Streams.Reverse(s)
  {
  }

  /** With pre-releases included, the listing is the whole feed reversed. */
  lemma ListAllWithPrereleases(vs: seq<Catalog.Version>, feed: seq<string>)
    ensures ListAll(vs, feed, true) == Streams.Reverse(feed)
  {
    Streams.FilterAll(feed, Included(vs, true));
  }

  /** `listVersionsFor(mc, p)`: the feed entries over `mc`, newest first, and
      none at all when `mc` is a pre-release and pre-releases are not
      requested. */
  function ListFor(vs: seq<Catalog.Version>, feed: seq<string>, mc: Catalog.Version, p: bool): (r: seq<string>)
    ensures |r| <= |feed|
    ensures forall i :: 0 <= i < |r| ==> r[i] in feed && OverBase(vs, mc)(r[i]) && (p || mc.IsRelease())
    ensures forall i :: 0 <= i < |feed| && OverBase(vs, mc)(feed[i]) && (p || mc.IsRelease()) ==> feed[i] in r
  {
    Streams.FilterFilter(feed, OverBase(vs, mc), ReleaseGate(mc, p));
    Streams.ReversedFilter(feed, Streams.Both(OverBase(vs, mc), ReleaseGate(mc, p)));
    Streams.Reverse(Streams.Filter(Streams.Filter(feed, OverBase(vs, mc)), ReleaseGate(mc, p)))
  }

  /** A pre-release base version lists nothing unless pre-releases are
      requested. */
  lemma PrereleaseListsNothing(vs: seq<Catalog.Version>, feed: seq<string>, mc: Catalog.Version)
    requires !mc.IsRelease()
    ensures ListFor(vs, feed, mc, false) == []
  {
    var over := Streams.Filter(feed, OverBase(vs, mc));
    Streams.FilterNone(over, ReleaseGate(mc, false));
  }

  /** With the gate open the listing is every entry over `mc`, newest
      first; so for a release base version the flag makes no difference. */
  lemma ReleaseIgnoresFlag(vs: seq<Catalog.Version>, feed: seq<string>, mc: Catalog.Version, p: bool)
    requires p || mc.IsRelease()
    ensures ListFor(vs, feed, mc, p) == Streams.Reverse(Streams.Filter(feed, OverBase(vs, mc)))
  {
    var over := Streams.Filter(feed, OverBase(vs, mc));
    Streams.FilterAll(over, ReleaseGate(mc, p));
  }

  /** `latestFor(mc, p)`: the first entry of `listVersionsFor(mc, p)`. */
  function LatestFor(vs: seq<Catalog.Version>, feed: seq<string>, mc: Catalog.Version, p: bool): (r: Option<string>)
    ensures r.Some? ==> r.value in feed && BaseVersion(vs, r.value) == Some(mc) && (p || mc.IsRelease())
  {
    var list := ListFor(vs, feed, mc, p);
    if |list| == 0 then None else Some(list[0])
  }

  /** The latest version over `mc` is the feed entry at the largest index
      that names `mc`, when the release gate lets anything through; there is
      none exactly when no entry names `mc` or the gate is closed. */
  lemma LatestForIsLastMatch(vs: seq<Catalog.Version>, feed: seq<string>, mc: Catalog.Version, p: bool)
    ensures var k := Streams.LastWhere(feed, OverBase(vs, mc));
      LatestFor(vs, feed, mc, p) == if (p || mc.IsRelease()) && k != -1 then Some(feed[k]) else None
  {
    if p || mc.IsRelease() {
      ReleaseIgnoresFlag(vs, feed, mc, p);
      Streams.FirstOfReversedFilter(feed, OverBase(vs, mc));
    } else {
      PrereleaseListsNothing(vs, feed, mc);
    }
  }

  /** The service state: the version cache of the (not shown) base class,
      holding the Maven listing under `"all"`. */
  class YarnService {
    const store: Upstream.ServiceCache<seq<string>>

    constructor (ttlMillis: int)
      ensures fresh(store) && store.entries == map[] && store.ttl == ttlMillis
    {
      store := new Upstream.ServiceCache(ttlMillis);
    }

    /** `listAllVersions(p)` over the cached or freshly requested feed; the
        overload without a flag passes `false`. */
    method ListAllVersions(vs: seq<Catalog.Version>, p: bool, now: int, maven: Upstream.Fetch<seq<string>>)
      returns (r: Result<seq<string>>)
      modifies store
      ensures var served := Upstream.ServedVersions(old(store.Active("all", now)), maven);
        r == if served.Ok? then Ok(ListAll(vs, served.value, p)) else Err
      ensures old(store.Active("all", now)).Some? || maven.FetchFailed? ==> store.entries == old(store.entries)
      ensures old(store.Active("all", now)).None? && maven.Fetched? ==>
        store.entries == old(store.entries)["all" := TtlCache.Entry(Upstream.VersionTexts(maven.value), now + old(store.ttl))]
      ensures store.ttl == old(store.ttl)
    {
      var feed := Upstream.CachedMavenVersions(store, now, maven);
      if feed.Err? {
        return Err;
      }
      return Ok(ListAll(vs, feed.value, p));
    }

    /** `listVersionsFor(mc, p)` over the cached or freshly requested feed;
        the overload without a flag passes `false`. */
    method ListVersionsFor(vs: seq<Catalog.Version>, mc: Catalog.Version, p: bool, now: int, maven: Upstream.Fetch<seq<string>>)
      returns (r: Result<seq<string>>)
      modifies store
      ensures var served := Upstream.ServedVersions(old(store.Active("all", now)), maven);
        r == if served.Ok? then Ok(ListFor(vs, served.value, mc, p)) else Err
      ensures old(store.Active("all", now)).Some? || maven.FetchFailed? ==> store.entries == old(store.entries)
      ensures old(store.Active("all", now)).None? && maven.Fetched? ==>
        store.entries == old(store.entries)["all" := TtlCache.Entry(Upstream.VersionTexts(maven.value), now + old(store.ttl))]
      ensures store.ttl == old(store.ttl)
    {
      var feed := Upstream.CachedMavenVersions(store, now, maven);
      if feed.Err? {
        return Err;
      }
      return Ok(ListFor(vs, feed.value, mc, p));
    }

    /** `latestFor(mc, p)`: the first entry of `listVersionsFor(mc, p)`; the
        overload without a flag passes `false`. */
    method LatestVersionFor(vs: seq<Catalog.Version>, mc: Catalog.Version, p: bool, now: int, maven: Upstream.Fetch<seq<string>>)
      returns (r: Result<Option<string>>)
      modifies store
      ensures var served := Upstream.ServedVersions(old(store.Active("all", now)), maven);
        r == if served.Ok? then Ok(LatestFor(vs, served.value, mc, p)) else Err
      ensures old(store.Active("all", now)).Some? || maven.FetchFailed? ==> store.entries == old(store.entries)
      ensures old(store.Active("all", now)).None? && maven.Fetched? ==>
        store.entries == old(store.entries)["all" := TtlCache.Entry(Upstream.VersionTexts(maven.value), now + old(store.ttl))]
      ensures store.ttl == old(store.ttl)
    {
      ghost var served := Upstream.ServedVersions(store.Active("all", now), maven);
      var list := ListVersionsFor(vs, mc, p, now, maven);
      if list.Err? {
        return Err;
      }
      assert list.value == ListFor(vs, served.value, mc, p);
      if |list.value| == 0 {
        return Ok(None);
      }
      return Ok(Some(list.value[0]));
    }

    /** `forceRefresh(p)`: the flag is ignored; a successful request replaces
        `"all"`, a failed one is logged and changes nothing. */
    method ForceRefresh(now: int, maven: Upstream.Fetch<seq<string>>)
      modifies store
      ensures maven.Fetched? ==>
        store.entries == old(store.entries)["all" := TtlCache.Entry(Upstream.VersionTexts(maven.value), now + old(store.ttl))]
      ensures maven.FetchFailed? ==> store.entries == old(store.entries)
      ensures store.ttl == old(store.ttl)
    {
      Upstream.RefreshMavenVersions(store, now, maven);
    }
  }
}
