/** What the upstream version services share: the outcome of one request to
    an upstream server, the reading of a Maven metadata document's
    `<version>` texts, and the per-service cache that the services' common
    base class keeps (an entry per key, with the same active test as
    `util.Cache`). */
module Upstream {
  import opened Wrappers
  import JavaString
  import TtlCache

  /** The outcome of a request: its decoded payload, or a failure (a status
      other than 200, an I/O error or a document that does not parse). */
  datatype Fetch<+T> = Fetched(value: T) | FetchFailed

  /** The versions kept from the `<version>` texts, in document order: a text
      that is not blank contributes its trimmed form. */
  function VersionTexts(texts: seq<string>): (r: seq<string>)
    ensures |r| <= |texts|
    ensures forall i :: 0 <= i < |r| ==> JavaString.Trimmed(r[i])
    ensures |texts| == 1 ==> r == if JavaString.IsBlank(texts[0]) then [] else [JavaString.Trim(texts[0])]
  {
    if |texts| == 0 then []
    else
      var init := VersionTexts(texts[..|texts| - 1]);
      var t := texts[|texts| - 1];
      if JavaString.IsBlank(t) then init else init + [JavaString.Trim(t)]
  }

  /** Reading two documents' worth of texts one after the other. */
  lemma {:induction false} VersionTextsAppend(a: seq<string>, b: seq<string>)
    ensures VersionTexts(a + b) == VersionTexts(a) + VersionTexts(b)
    decreases |b|
  {
    if |b| == 0 {
      assert a + b == a;
    } else {
      var b' := b[..|b| - 1];
      assert (a + b)[..|a + b| - 1] == a + b';
      VersionTextsAppend(a, b');
    }
  }

  /** Blankness is tested with `Character.isWhitespace`, trimming strips
      every character up to U+0020: a text holding a NUL is not blank, and
      yet trims to the empty string, which is kept. */
  lemma NulTextKeptEmpty()
    ensures VersionTexts(["\0"]) == [""]
  {
    var t := "\0";
    assert !JavaString.IsWhitespace(t[0]) && !JavaString.IsBlank(t);
    assert JavaString.TrimStart(t) == JavaString.TrimStart(t[1..]) == "";
    assert JavaString.Trim(t) == "";
    var single: seq<string> := [t];
    assert single[..0] == [];
  }

  /** The parse loop of `fetchAllVersionsFromMaven`. */
  method ParseVersionTexts(texts: seq<string>) returns (out: seq<string>)
    ensures out == VersionTexts(texts)
  {
    out := [];
    var i := 0;
    while i < |texts|
      invariant 0 <= i <= |texts|
      invariant out == VersionTexts(texts[..i])
    {
      assert texts[..i + 1][..i] == texts[..i];
      var text := texts[i];
      if !JavaString.IsBlank(text) {
        out := out + [JavaString.Trim(text)];
      }
      i := i + 1;
    }
    assert texts[..i] == texts;
  }

  /** The cache map and time-to-live of a version service. Unlike
      `util.Cache`, reading an entry here never removes it: the services
      test activity themselves and may fall back on an expired value. */
  class ServiceCache<T> {
    var entries: map<string, TtlCache.Entry<T>>
    var ttl: int

    constructor (ttlMillis: int)
      ensures entries == map[] && ttl == ttlMillis
    {
      entries := map[];
      ttl := ttlMillis;
    }

    /** The value of an active entry for `key`. */
    function Active(key: string, now: int): (r: Option<T>)
      reads this
      ensures r.Some? <==> key in entries && now < entries[key].expiresAt
      ensures r.Some? ==> r.value == entries[key].value
    {
      if key in entries && entries[key].IsActive(now) then Some(entries[key].value) else None
    }

    /** `cache.put(key, new CacheEntry<>(value, now + ttl))` */
    method Store(key: string, value: T, now: int)
      modifies this
      ensures entries == old(entries)[key := TtlCache.Entry(value, now + old(ttl))]
      ensures ttl == old(ttl)
    {
      entries := entries[key := TtlCache.Entry(value, now + ttl)];
    }

    /** `cache.remove(key)` */
    method Remove(key: string)
      modifies this
      ensures entries == old(entries) - {key}
      ensures ttl == old(ttl)
    {
      entries := entries - {key};
    }
  }

  /** What `versions()` answers, given the active `"all"` value (if any) and
      the outcome of the request it makes when there is none. */
  function ServedVersions(cached: Option<seq<string>>, maven: Fetch<seq<string>>): (r: Result<seq<string>>)
    ensures cached.Some? ==> r == Ok(cached.value)
    ensures cached.None? ==> (r.Err? <==> maven.FetchFailed?)
    ensures cached.None? && maven.Fetched? ==> r.value == VersionTexts(maven.value)
  {
    match cached
    case Some(v) => Ok(v)
    case None => if maven.Fetched? then Ok(VersionTexts(maven.value)) else Err
  }

  /** The `versions()` of the Maven-backed services (Forge, Yarn): an active
      `"all"` entry is returned without a request; otherwise the metadata is
      requested, and its versions replace the entry and are returned. A
      failed request propagates and leaves the cache as it was, with no
      fallback on an expired entry. */
  method CachedMavenVersions(store: ServiceCache<seq<string>>, now: int, maven: Fetch<seq<string>>)
    returns (r: Result<seq<string>>)
    modifies store
    ensures r == ServedVersions(old(store.Active("all", now)), maven)
    ensures old(store.Active("all", now)).Some? || maven.FetchFailed? ==> store.entries == old(store.entries)
    ensures old(store.Active("all", now)).None? && maven.Fetched? ==>
      store.entries == old(store.entries)["all" := TtlCache.Entry(VersionTexts(maven.value), now + old(store.ttl))]
    ensures store.ttl == old(store.ttl)
  {
    var cached := store.Active("all", now);
    if cached.Some? {
      return Ok(cached.value);
    }
    if maven.FetchFailed? {
      return Err;
    }
    var parsed := ParseVersionTexts(maven.value);
    store.Store("all", parsed, now);
    return Ok(parsed);
  }

  /** The `forceRefresh` of the Maven-backed services: a successful request
      replaces `"all"`; a failed one is logged and changes nothing. */
  method RefreshMavenVersions(store: ServiceCache<seq<string>>, now: int, maven: Fetch<seq<string>>)
    modifies store
    ensures maven.Fetched? ==>
      store.entries == old(store.entries)["all" := TtlCache.Entry(VersionTexts(maven.value), now + old(store.ttl))]
    ensures maven.FetchFailed? ==> store.entries == old(store.entries)
    ensures store.ttl == old(store.ttl)
  {
    if maven.Fetched? {
      var parsed := ParseVersionTexts(maven.value);
      store.Store("all", parsed, now);
    }
  }
}
