/** `ParchmentVersionManager` (two copies with the same behaviour, one of
    which adds `doesParchmentExist`): Parchment releases are read from the tag
    names of the Parchment repository, cached for three hours under `"all"`,
    and served sorted by date; per base version they are filtered, grouped
    into a map ordered by key, and the latest is the one with the greatest
    version text. The tag names the clone yields are a parameter. A clone
    that throws `GitAPIException` is `FetchFailed`, and so, in the
    `minecraft/parchment` copy, is a failed walk of the old clone or a
    failed creation of the clone directory. */
module ParchmentVersions {
  import opened Wrappers
  import JavaString
  import Streams
  import TtlCache
  import Upstream
  import opened Parchment

  /** `Duration.ofHours(3)`, in milliseconds. */
  const CacheTtlMillis: int := 3 * 60 * 60 * 1000

  const TagPrefix: string := "refs/tags/releases/"

  /** One tag: every `refs/tags/releases/` removed, the rest split on `-`;
      fewer than two parts is an invalid tag, otherwise the first part is
      the base version and the second the Parchment version. */
  function TagVersion(name: string): (r: Option<ParchmentVersion>)
    ensures r.Some? ==> r.value.isStable && '-' !in r.value.version && '-' !in r.value.minecraftVersion
  {
    var parts := JavaString.Split(JavaString.ReplaceAll(name, TagPrefix, ""), '-');
    if |parts| < 2 then None else Some(ParchmentVersion(parts[1], parts[0], true))
  }

  /** `releases/<mc>-<version>` reads as that pair. */
  lemma WellFormedTag(mc: string, v: string)
    requires '-' !in mc && '-' !in v && '/' !in mc && '/' !in v && v != ""
    ensures TagVersion(TagPrefix + mc + "-" + v) == Some(ParchmentVersion(v, mc, true))
  {
    var rest := mc + "-" + v;
    assert TagPrefix + mc + "-" + v == TagPrefix + rest;
    JavaString.ReplaceAllLeading(TagPrefix, rest, "");
    assert TagPrefix[4] == '/' && '/' !in rest;
    JavaString.ReplaceAllMissing(rest, TagPrefix, "", 4);
    assert "" + rest == rest;
    JavaString.SplitTwo(mc, v, '-');
  }

  /** Only the first two parts count: `releases/<mc>-<version>-<more>` reads
      as the same pair. */
  lemma ExtraPartDropped(mc: string, v: string, more: string)
    requires '-' !in mc && '-' !in v && '-' !in more && more != ""
    requires '/' !in mc && '/' !in v && '/' !in more
    ensures TagVersion(TagPrefix + mc + "-" + v + "-" + more) == Some(ParchmentVersion(v, mc, true))
  {
    var rest := mc + "-" + (v + "-" + more);
    assert TagPrefix + mc + "-" + v + "-" + more == TagPrefix + rest;
    JavaString.ReplaceAllLeading(TagPrefix, rest, "");
    assert TagPrefix[4] == '/' && '/' !in rest;
    JavaString.ReplaceAllMissing(rest, TagPrefix, "", 4);
    assert "" + rest == rest;
    JavaString.SplitThree(mc, v, more, '-');
  }

  /** A tag name without `-` is skipped. */
  lemma DashlessTagSkipped(name: string)
    requires '-' !in name
    ensures TagVersion(name).None?
  {
  }

  /** The tag loop: the versions of the valid tags, in tag order. */
  function Tags(names: seq<string>): (r: seq<ParchmentVersion>)
    ensures |r| <= |names|
  {
    Streams.Collect(names, TagVersion)
  }

  /** Every valid tag contributes its version, and every version comes from
      a valid tag (so each is stable and free of `-`). */
  lemma TagsExactly(names: seq<string>)
    ensures forall i :: 0 <= i < |names| && TagVersion(names[i]).Some? ==> TagVersion(names[i]).value in Tags(names)
    ensures forall k :: 0 <= k < |Tags(names)| ==>
      Tags(names)[k].isStable && '-' !in Tags(names)[k].version && '-' !in Tags(names)[k].minecraftVersion
  {
    forall i | 0 <= i < |names| && TagVersion(names[i]).Some? ensures TagVersion(names[i]).value in Tags(names) {
      Streams.CollectKept(names, TagVersion, i);
    }
    forall k | 0 <= k < |Tags(names)|
      ensures Tags(names)[k].isStable && '-' !in Tags(names)[k].version && '-' !in Tags(names)[k].minecraftVersion
    {
      var i := Streams.CollectOrigin(names, TagVersion, k);
    }
  }

  /** `fetchAllVersions` after the clone: the tag loop. */
  method ParseTags(names: seq<string>) returns (tags: seq<ParchmentVersion>)
    ensures tags == Tags(names)
  {
    tags := [];
    for i := 0 to |names|
      invariant tags == Tags(names[..i])
    {
      assert names[..i + 1][..i] == names[..i];
      var v := TagVersion(names[i]);
      if v.Some? {
        tags := tags + [v.value];
      }
    }
    assert names[..|names|] == names;
  }

  /** What `fetchAllVersions` returns: the parsed tags, or the empty list
      when the clone fails (a failed deletion of one file of an old clone is
      only logged, in both copies). */
  function FetchedVersions(clone: Upstream.Fetch<seq<string>>): seq<ParchmentVersion> {
    if clone.Fetched? then Tags(clone.value) else []
  }

  method FetchAllVersions(clone: Upstream.Fetch<seq<string>>) returns (r: seq<ParchmentVersion>)
    ensures r == FetchedVersions(clone)
    ensures clone.FetchFailed? ==> r == []
  {
    if clone.FetchFailed? {
      return [];
    }
    r := ParseTags(clone.value);
  }

  predicate AllDates(list: seq<ParchmentVersion>) {
    forall i :: 0 <= i < |list| ==> DateOf(list[i].version).Some?
  }

  /** `sorted()`: ascending by `compareTo`. A list of two or more entries
      has every entry compared, so one version that is not a date makes the
      sort throw; a list of at most one entry is returned without a
      comparison. */
  function SortedListing(list: seq<ParchmentVersion>): (r: Result<seq<ParchmentVersion>>)
    ensures r.Err? <==> |list| >= 2 && !AllDates(list)
    ensures r.Ok? ==> multiset(r.value) == multiset(list)
    ensures r.Ok? ==> forall i, j :: 0 <= i < j < |r.value| ==>
      Compare(r.value[i], r.value[j]).Ok? && Compare(r.value[i], r.value[j]).value <= 0
  {
    if |list| >= 2 && !AllDates(list) then Err
    else
      SortCompareOrder();
      Streams.InsertionSortSorted(list, SortCompare());
      var sorted := Streams.InsertionSort(list, SortCompare());
      SortedByCompare(list, sorted);
      Ok(sorted)
  }

  /** The sort is stable: versions with the same date keep their tag order
      in a successful listing, as `Stream.sorted` keeps them. The date is
      the sort key, which every version of a listing of two or more has. */
  lemma SortedListingStable(list: seq<ParchmentVersion>, d: Date)
    ensures SortedListing(list).Ok? ==>
      Streams.Filter(SortedListing(list).value, OfDate(d)) == Streams.Filter(list, OfDate(d))
  {
    if SortedListing(list).Ok? {
      forall a, b | OfDate(d)(a) && OfDate(d)(b) ensures SortCompare()(a, b) <= 0 {
        assert SortKey(a) == SortKey(b);
      }
      Streams.InsertionSortStable(list, SortCompare(), OfDate(d));
    }
  }

  function OfDate(d: Date): ParchmentVersion -> bool {
    (v: ParchmentVersion) => SortKey(v) == d
  }

  /** The sort comparator is a total preorder. */
  lemma SortCompareOrder()
    ensures Streams.SignAntisymmetric(SortCompare())
    ensures Streams.NonPositiveTransitive(SortCompare())
  {
    var cmp := SortCompare();
    forall a: ParchmentVersion, b: ParchmentVersion | cmp(a, b) > 0 ensures cmp(b, a) < 0 {
      CompareDatesAntisymmetric(SortKey(a), SortKey(b));
    }
    forall a: ParchmentVersion, b: ParchmentVersion, c: ParchmentVersion | cmp(a, b) <= 0 && cmp(b, c) <= 0
      ensures cmp(a, c) <= 0
    {
      CompareDatesTransitive(SortKey(a), SortKey(b), SortKey(c));
    }
  }

  /** Sorted by the sort comparator over dates means sorted by `compareTo`. */
  lemma SortedByCompare(list: seq<ParchmentVersion>, sorted: seq<ParchmentVersion>)
    requires |list| < 2 || AllDates(list)
    requires multiset(sorted) == multiset(list) && Streams.Sorted(sorted, SortCompare())
    ensures forall i, j :: 0 <= i < j < |sorted| ==>
      Compare(sorted[i], sorted[j]).Ok? && Compare(sorted[i], sorted[j]).value <= 0
  {
    forall i, j | 0 <= i < j < |sorted|
      ensures Compare(sorted[i], sorted[j]).Ok? && Compare(sorted[i], sorted[j]).value <= 0
    {
      assert |sorted| == |list| by {
        assert |multiset(sorted)| == |multiset(list)|;
      }
      assert sorted[i] in multiset(list) && sorted[j] in multiset(list);
      SortCompareIsCompare(sorted[i], sorted[j]);
    }
  }

  /** A single entry is listed even when its version is not a date. */
  lemma SingleEntryListed(v: ParchmentVersion)
    ensures SortedListing([v]) == Ok([v])
  {
  }

  /** Two entries one of which is not a date make the listing fail. */
  lemma NonDateFailsListing(a: ParchmentVersion, b: ParchmentVersion)
    requires DateOf(b.version).None?
    ensures SortedListing([a, b]).Err?
  {
    assert !AllDates([a, b]) by {
      assert [a, b][1] == b;
    }
  }

  /** `listVersionsFor`'s test. */
  function OnMinecraft(mc: string): ParchmentVersion -> bool {
    (v: ParchmentVersion) => v.minecraftVersion == mc
  }

  /** The loop of `listVersionsFor`. */
  method FilterByMinecraft(all: seq<ParchmentVersion>, mc: string) returns (filtered: seq<ParchmentVersion>)
    ensures filtered == Streams.Filter(all, OnMinecraft(mc))
  {
    filtered := [];
    for i := 0 to |all|
      invariant filtered == Streams.Filter(all[..i], OnMinecraft(mc))
    {
      assert all[..i + 1][..i] == all[..i];
      if all[i].minecraftVersion == mc {
        filtered := filtered + [all[i]];
      }
    }
    assert all[..|all|] == all;
  }

  /** The order `sorted()` leaves between an earlier and a later entry. */
  function InDateOrder(): (ParchmentVersion, ParchmentVersion) -> bool {
    (a: ParchmentVersion, b: ParchmentVersion) => Compare(a, b).Ok? && Compare(a, b).value <= 0
  }

  /** Filtering keeps the date order of a sorted listing. */
  lemma FilterKeepsOrder(s: seq<ParchmentVersion>, mc: string)
    requires forall i, j :: 0 <= i < j < |s| ==> Compare(s[i], s[j]).Ok? && Compare(s[i], s[j]).value <= 0
    ensures var f := Streams.Filter(s, OnMinecraft(mc));
      forall i, j :: 0 <= i < j < |f| ==> Compare(f[i], f[j]).Ok? && Compare(f[i], f[j]).value <= 0
  {
    assert forall i, j :: 0 <= i < j < |s| ==> InDateOrder()(s[i], s[j]);
    Streams.FilterPairwise(s, OnMinecraft(mc), InDateOrder());
  }

  /** A `TreeMap` over the base versions: the groups, and the keys in
      ascending `compareTo` order. */
  datatype Grouping = Grouping(keys: seq<string>, groups: map<string, seq<ParchmentVersion>>)

  predicate Ascending(keys: seq<string>) {
    forall i, j :: 0 <= i < j < |keys| ==> JavaString.CompareTo(keys[i], keys[j]) < 0
  }

  /** A new key put in its place among the others. */
  function InsertKey(keys: seq<string>, k: string): (r: seq<string>)
    ensures |r| == |keys| + 1
    ensures forall x :: x in r <==> x in keys || x == k
  {
    if |keys| == 0 then [k]
    else if JavaString.CompareTo(keys[0], k) < 0 then [keys[0]] + InsertKey(keys[1..], k)
    else [k] + keys
  }

  lemma {:induction false} InsertKeyAscending(keys: seq<string>, k: string)
    requires Ascending(keys) && k !in keys
    ensures Ascending(InsertKey(keys, k))
  {
    if |keys| > 0 {
      if JavaString.CompareTo(keys[0], k) < 0 {
        assert Ascending(keys[1..]);
        InsertKeyAscending(keys[1..], k);
        var r := InsertKey(keys, k);
        forall j | 0 < j < |r| ensures JavaString.CompareTo(r[0], r[j]) < 0 {
          assert r[j] in keys[1..] || r[j] == k;
        }
      } else {
        JavaString.CompareToAntisymmetric(keys[0], k);
        forall j | 0 <= j < |keys| ensures JavaString.CompareTo(k, keys[j]) < 0 {
          if j > 0 {
            JavaString.CompareToTransitive(k, keys[0], keys[j]);
          }
        }
      }
    }
  }

  /** The grouping of `s`: keys naming exactly the groups, one group per
      base version some element of `s` is over, holding those elements in
      order. */
  ghost predicate GroupsOf(keys: seq<string>, groups: map<string, seq<ParchmentVersion>>, s: seq<ParchmentVersion>) {
    (forall k :: k in keys <==> k in groups) &&
    (forall k :: k in groups <==> |Streams.Filter(s, OnMinecraft(k))| > 0) &&
    (forall k :: k in groups ==> groups[k] == Streams.Filter(s, OnMinecraft(k)))
  }

  /** One more version over a known base version joins the end of its group. */
  lemma GroupAppend(keys: seq<string>, groups: map<string, seq<ParchmentVersion>>, s: seq<ParchmentVersion>, v: ParchmentVersion)
    requires GroupsOf(keys, groups, s) && v.minecraftVersion in groups
    ensures GroupsOf(keys, groups[v.minecraftVersion := groups[v.minecraftVersion] + [v]], s + [v])
  {
    var g' := groups[v.minecraftVersion := groups[v.minecraftVersion] + [v]];
    forall k | k in g'
      ensures g'[k] == Streams.Filter(s + [v], OnMinecraft(k)) && |g'[k]| > 0
    {
      Streams.FilterSnoc(s, v, OnMinecraft(k));
    }
    forall k | |Streams.Filter(s + [v], OnMinecraft(k))| > 0
      ensures k in g'
    {
      Streams.FilterSnoc(s, v, OnMinecraft(k));
    }
    assert GroupsOf(keys, g', s + [v]);
  }

  /** One more version over a new base version opens a group of its own and
      inserts its key. */
  lemma GroupCreate(keys: seq<string>, keys': seq<string>, groups: map<string, seq<ParchmentVersion>>,
                     s: seq<ParchmentVersion>, v: ParchmentVersion)
    requires GroupsOf(keys, groups, s) && v.minecraftVersion !in groups
    requires forall k :: k in keys' <==> k in keys || k == v.minecraftVersion
    ensures GroupsOf(keys', groups[v.minecraftVersion := [v]], s + [v])
  {
    var key := v.minecraftVersion;
    var g' := groups[key := [v]];
    forall k | k in g'
      ensures g'[k] == Streams.Filter(s + [v], OnMinecraft(k)) && |g'[k]| > 0
    {
      Streams.FilterSnoc(s, v, OnMinecraft(k));
    }
    forall k | |Streams.Filter(s + [v], OnMinecraft(k))| > 0
      ensures k in g'
    {
      Streams.FilterSnoc(s, v, OnMinecraft(k));
    }
    assert GroupsOf(keys', g', s + [v]);
  }

  /** `getAllVersionsGroupedByMinecraftVersion`'s loop: every version is
      appended to the group of its base version, which is created when it
      is first seen. The groups are exactly the non-empty filters by base
      version, and every version lies in its own group. */
  method GroupByMinecraftVersion(all: seq<ParchmentVersion>) returns (g: Grouping)
    ensures Ascending(g.keys)
    ensures forall k :: k in g.keys <==> k in g.groups
    ensures forall k :: k in g.groups <==> |Streams.Filter(all, OnMinecraft(k))| > 0
    ensures forall k :: k in g.groups ==> g.groups[k] == Streams.Filter(all, OnMinecraft(k))
  {
    var keys: seq<string> := [];
    var groups: map<string, seq<ParchmentVersion>> := map[];
    for i := 0 to |all|
      invariant Ascending(keys) && GroupsOf(keys, groups, all[..i])
    {
      var v := all[i];
      var key := v.minecraftVersion;
      assert all[..i + 1] == all[..i] + [v];
      if key in groups {
        GroupAppend(keys, groups, all[..i], v);
        groups := groups[key := groups[key] + [v]];
      } else {
        GroupCreate(keys, InsertKey(keys, key), groups, all[..i], v);
        InsertKeyAscending(keys, key);
        keys := InsertKey(keys, key);
        groups := groups[key := [v]];
      }
    }
    assert all[..|all|] == all;
    g := Grouping(keys, groups);
  }

  /** Every listed version lies in the group of its base version. */
  lemma InOwnGroup(all: seq<ParchmentVersion>, i: nat)
    requires i < |all|
    ensures all[i] in Streams.Filter(all, OnMinecraft(all[i].minecraftVersion))
  {
  }

  /** `max(comparing(version))`: the index of the first entry whose version
      text is greatest; a later equal entry does not replace it. */
  function FirstMaxIndex(s: seq<ParchmentVersion>): (m: nat)
    requires |s| > 0
    ensures m < |s|
    ensures forall j :: 0 <= j < |s| ==> JavaString.CompareTo(s[j].version, s[m].version) <= 0
    ensures forall j :: 0 <= j < m ==> JavaString.CompareTo(s[j].version, s[m].version) < 0
  {
    if |s| == 1 then
      0
    else
      var init := s[..|s| - 1];
      var m0 := FirstMaxIndex(init);
      var m := if JavaString.CompareTo(s[m0].version, s[|s| - 1].version) >= 0 then m0 else |s| - 1;
      MaxStep(init, s[|s| - 1], m0, m);
      assert s == init + [s[|s| - 1]];
      m
  }

  /** One more element: the earlier maximum stays unless the new element's
      text is strictly greater. */
  lemma MaxStep(init: seq<ParchmentVersion>, x: ParchmentVersion, m0: nat, m: nat)
    requires m0 < |init|
    requires forall j :: 0 <= j < |init| ==> JavaString.CompareTo(init[j].version, init[m0].version) <= 0
    requires forall j :: 0 <= j < m0 ==> JavaString.CompareTo(init[j].version, init[m0].version) < 0
    requires m == if JavaString.CompareTo(init[m0].version, x.version) >= 0 then m0 else |init|
    ensures m < |init + [x]|
    ensures forall j :: 0 <= j < |init + [x]| ==> JavaString.CompareTo((init + [x])[j].version, (init + [x])[m].version) <= 0
    ensures forall j :: 0 <= j < m ==> JavaString.CompareTo((init + [x])[j].version, (init + [x])[m].version) < 0
  {
    var s := init + [x];
    var best := init[m0].version;
    JavaString.CompareToAntisymmetric(best, x.version);
    if m == m0 {
      forall j | 0 <= j < |s| ensures JavaString.CompareTo(s[j].version, best) <= 0 {
        if j == |init| {
          assert s[j] == x;
        } else {
          assert s[j] == init[j];
        }
      }
    } else {
      forall j | 0 <= j < |init| ensures JavaString.CompareTo(init[j].version, x.version) < 0 {
        JavaString.CompareToTransitive(init[j].version, best, x.version);
        assert JavaString.CompareTo(init[j].version, x.version) != 0;
      }
      assert forall j :: 0 <= j < |init| ==> s[j] == init[j];
    }
  }

  /** `max(...)` as an `Optional`: empty exactly for an empty list. */
  function Latest(s: seq<ParchmentVersion>): (r: Option<ParchmentVersion>)
    ensures r.None? <==> |s| == 0
    ensures r.Some? ==> r.value in s && forall j :: 0 <= j < |s| ==> JavaString.CompareTo(s[j].version, r.value.version) <= 0
  {
    if |s| == 0 then None else Some(s[FirstMaxIndex(s)])
  }

  lemma JanuaryDotted()
    ensures DateOf("2024.01.01") == Some(Date(2024, 1, 1))
  {
    DateOfDotted(Date(2024, 1, 1));
    assert Pad4(2024) == "2024" && Pad2(1) == "01";
    assert FormatDotted(Date(2024, 1, 1)) == "2024.01.01";
  }

  lemma DecemberDashed()
    ensures DateOf("2024-12-01") == Some(Date(2024, 12, 1))
  {
    DateOfIso(Date(2024, 12, 1));
    assert Pad4(2024) == "2024" && Pad2(12) == "12" && Pad2(1) == "01";
    assert FormatIso(Date(2024, 12, 1)) == "2024-12-01";
  }

  lemma DashBeforeDot()
    ensures JavaString.CompareTo("2024.01.01", "2024-12-01") > 0
    ensures JavaString.CompareTo("2024-12-01", "2024.01.01") < 0
  {
    JavaString.CompareToAt("2024-12-01", "2024.01.01", 4);
    JavaString.CompareToAntisymmetric("2024-12-01", "2024.01.01");
  }

  /** The latest is chosen by version text, not by date: `2024.01.01` wins
      over the later date `2024-12-01`, because `.` follows `-`. */
  lemma LatestIsByText(a: ParchmentVersion, b: ParchmentVersion)
    requires a.version == "2024.01.01" && b.version == "2024-12-01"
    ensures Latest([b, a]) == Some(a)
    ensures SortKey(b) == Date(2024, 12, 1) && SortKey(a) == Date(2024, 1, 1)
  {
    DashBeforeDot();
    LatestOfTwo(b, a);
    JanuaryDotted();
    DecemberDashed();
  }

  /** Of two versions, the one with the greater text is the latest. */
  lemma LatestOfTwo(x: ParchmentVersion, y: ParchmentVersion)
    requires JavaString.CompareTo(x.version, y.version) < 0
    ensures Latest([x, y]) == Some(y)
  {
    assert [x, y][..1] == [x];
    assert FirstMaxIndex([x]) == 0;
  }

  /** The `"all"` listing the cache serves: the stored one while it is
      active, otherwise the freshly fetched one. */
  function CachedList(entries: map<string, TtlCache.Entry<seq<ParchmentVersion>>>, now: int, clone: Upstream.Fetch<seq<string>>): seq<ParchmentVersion> {
    if "all" in entries && entries["all"].IsActive(now) then entries["all"].value else FetchedVersions(clone)
  }

  /** The cache after `get("all", fetcher)`: unchanged while `"all"` is
      active, otherwise holding the fetched list (an empty one included). */
  function Refilled(entries: map<string, TtlCache.Entry<seq<ParchmentVersion>>>, now: int, ttl: int, clone: Upstream.Fetch<seq<string>>): map<string, TtlCache.Entry<seq<ParchmentVersion>>> {
    if "all" in entries && entries["all"].IsActive(now) then entries
    else entries["all" := TtlCache.Entry(FetchedVersions(clone), now + ttl)]
  }

  /** From an empty cache, a listing stores and returns the fetched list. */
  lemma RefilledEmpty(entries: map<string, TtlCache.Entry<seq<ParchmentVersion>>>, now: int, ttl: int, clone: Upstream.Fetch<seq<string>>)
    requires entries == map[]
    ensures Refilled(entries, now, ttl, clone) == map["all" := TtlCache.Entry(FetchedVersions(clone), now + ttl)]
    ensures CachedList(entries, now, clone) == FetchedVersions(clone)
  {
  }

  /** A failed clone is cached as an empty listing like any other result. */
  lemma FailedCloneCached(entries: map<string, TtlCache.Entry<seq<ParchmentVersion>>>, now: int, ttl: int)
    requires "all" !in entries
    ensures Refilled(entries, now, ttl, Upstream.FetchFailed)["all"] == TtlCache.Entry([], now + ttl)
    ensures SortedListing(CachedList(entries, now, Upstream.FetchFailed)) == Ok([])
  {
  }

  /** After a refill, the fetched listing is served from the cache until it
      expires, whatever a later clone would yield. */
  lemma RefilledServes(entries: map<string, TtlCache.Entry<seq<ParchmentVersion>>>, now: int, ttl: int,
                       clone: Upstream.Fetch<seq<string>>, later: int, laterClone: Upstream.Fetch<seq<string>>)
    requires !("all" in entries && entries["all"].IsActive(now))
    requires now <= later < now + ttl
    ensures CachedList(Refilled(entries, now, ttl, clone), later, laterClone) == FetchedVersions(clone)
  {
  }

  class VersionManager {
    const cache: TtlCache.Cache<string, seq<ParchmentVersion>>

    constructor ()
      ensures fresh(cache) && cache.entries == map[] && cache.ttl == CacheTtlMillis
    {
      cache := new TtlCache.Cache.WithTtl(CacheTtlMillis);
    }

    /** `listAllVersions`: the cached or fetched list, sorted; the fetched
        list is stored before the sort, so it stays cached when the sort
        throws. */
    method ListAllVersions(now: int, clone: Upstream.Fetch<seq<string>>) returns (r: Result<seq<ParchmentVersion>>)
      modifies cache
      ensures r == SortedListing(CachedList(old(cache.entries), now, clone))
      ensures cache.entries == Refilled(old(cache.entries), now, old(cache.ttl), clone)
      ensures cache.ttl == old(cache.ttl)
    {
      var fetched := FetchAllVersions(clone);
      var list, _ := cache.GetOrFetch("all", now, Some(fetched));
      r := SortedListing(list.value);
    }

    /** `listVersionsFor(mc)`: the listing filtered to `mc`, in date order. */
    method ListVersionsFor(mc: string, now: int, clone: Upstream.Fetch<seq<string>>) returns (r: Result<seq<ParchmentVersion>>)
      modifies cache
      ensures var all := SortedListing(CachedList(old(cache.entries), now, clone));
        r == if all.Ok? then Ok(Streams.Filter(all.value, OnMinecraft(mc))) else Err
      ensures cache.entries == Refilled(old(cache.entries), now, old(cache.ttl), clone)
      ensures cache.ttl == old(cache.ttl)
    {
      var all := ListAllVersions(now, clone);
      if all.Err? {
        return Err;
      }
      var filtered := FilterByMinecraft(all.value, mc);
      r := Ok(filtered);
    }

    /** `doesParchmentExist(mc)`: some listed version is over `mc`. */
    method DoesParchmentExist(mc: string, now: int, clone: Upstream.Fetch<seq<string>>) returns (r: Result<bool>)
      modifies cache
      ensures var all := SortedListing(CachedList(old(cache.entries), now, clone));
        r == if all.Ok? then Ok(exists i :: 0 <= i < |all.value| && all.value[i].minecraftVersion == mc) else Err
      ensures cache.entries == Refilled(old(cache.entries), now, old(cache.ttl), clone)
      ensures cache.ttl == old(cache.ttl)
    {
      var list := ListVersionsFor(mc, now, clone);
      if list.Err? {
        return Err;
      }
      ghost var all := SortedListing(CachedList(old(cache.entries), now, clone)).value;
      if |list.value| > 0 {
        assert OnMinecraft(mc)(list.value[0]);
      } else {
        assert forall i :: 0 <= i < |all| ==> all[i].minecraftVersion != mc;
      }
      r := Ok(|list.value| > 0);
    }

    /** `getAllVersionsGroupedByMinecraftVersion`. */
    method GroupedByMinecraftVersion(now: int, clone: Upstream.Fetch<seq<string>>) returns (r: Result<Grouping>)
      modifies cache
      ensures var all := SortedListing(CachedList(old(cache.entries), now, clone));
        r.Ok? <==> all.Ok?
      ensures var all := SortedListing(CachedList(old(cache.entries), now, clone));
        r.Ok? ==> (Ascending(r.value.keys)
          && (forall k :: k in r.value.keys <==> k in r.value.groups)
          && (forall k :: k in r.value.groups <==> |Streams.Filter(all.value, OnMinecraft(k))| > 0)
          && (forall k :: k in r.value.groups ==> r.value.groups[k] == Streams.Filter(all.value, OnMinecraft(k))))
      ensures cache.entries == Refilled(old(cache.entries), now, old(cache.ttl), clone)
      ensures cache.ttl == old(cache.ttl)
    {
      var all := ListAllVersions(now, clone);
      if all.Err? {
        return Err;
      }
      var g := GroupByMinecraftVersion(all.value);
      r := Ok(g);
    }

    /** `latestFor(mc)`: the greatest version text among those over `mc`. */
    method LatestFor(mc: string, now: int, clone: Upstream.Fetch<seq<string>>) returns (r: Result<Option<ParchmentVersion>>)
      modifies cache
      ensures var all := SortedListing(CachedList(old(cache.entries), now, clone));
        r == if all.Ok? then Ok(Latest(Streams.Filter(all.value, OnMinecraft(mc)))) else Err
      ensures cache.entries == Refilled(old(cache.entries), now, old(cache.ttl), clone)
      ensures cache.ttl == old(cache.ttl)
    {
      var list := ListVersionsFor(mc, now, clone);
      if list.Err? {
        return Err;
      }
      r := Ok(Latest(list.value));
    }

    /** `latestOverall()`: the greatest version text of the whole listing;
        `None` stands for `null`. */
    method LatestOverall(now: int, clone: Upstream.Fetch<seq<string>>) returns (r: Result<Option<ParchmentVersion>>)
      modifies cache
      ensures var all := SortedListing(CachedList(old(cache.entries), now, clone));
        r == if all.Ok? then Ok(Latest(all.value)) else Err
      ensures cache.entries == Refilled(old(cache.entries), now, old(cache.ttl), clone)
      ensures cache.ttl == old(cache.ttl)
    {
      var all := ListAllVersions(now, clone);
      if all.Err? {
        return Err;
      }
      r := Ok(Latest(all.value));
    }

    /** `forceRefresh()`: the cache is emptied and `"all"` fetched again;
        `ok` is false when the sort of the new listing throws, which happens
        after the list is stored. */
    method ForceRefresh(now: int, clone: Upstream.Fetch<seq<string>>) returns (ok: bool)
      modifies cache
      ensures cache.entries == map["all" := TtlCache.Entry(FetchedVersions(clone), now + old(cache.ttl))]
      ensures ok <==> SortedListing(FetchedVersions(clone)).Ok?
      ensures cache.ttl == old(cache.ttl)
    {
      cache.Clear();
      ghost var cleared := cache.entries;
      RefilledEmpty(cleared, now, cache.ttl, clone);
      var all := ListAllVersions(now, clone);
      ok := all.Ok?;
    }
  }
}
