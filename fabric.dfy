/** `FabricLoaderVersionService`: loader builds served from the loader
    endpoints as JSON arrays, cached per key (`"all"` for the full list,
    `"mc:<id>"` per base version) with a fall-back on the previous value
    when a request fails, a memoised `latest()`, and a lookup by version
    text. The request outcomes are inputs. */
module Fabric {
  import opened Wrappers
  import opened Json
  import JavaString
  import Catalog
  import Streams
  import TtlCache
  import Upstream

  /** `FabricLoaderVersion`; `None` stands for a null string. */
  datatype LoaderVersion = LoaderVersion(separator: Option<string>, build: int, maven: Option<string>,
                                         version: Option<string>, stable: bool)

  /** A `String` record component, read by Gson's string adapter: a missing
      or null member is null, a string is taken as it is, a boolean or a
      number becomes its text, and an object or an array fails to decode. */
  function StringField(m: map<string, Json>, k: string): (r: Result<Option<string>>)
    ensures k !in m ==> r == Ok(None)
    ensures k in m && m[k].JNull? ==> r == Ok(None)
    ensures k in m && m[k].JString? ==> r == Ok(Some(m[k].s))
    ensures k in m && m[k].JBool? ==> r == Ok(Some(if m[k].b then "true" else "false"))
    ensures k in m && m[k].JNumber? ==> r.Ok? && r.value.Some? && r.value.value == JavaString.IntToString(m[k].n)
    ensures r.Err? <==> k in m && (m[k].JObject? || m[k].JArray?)
  {
    if k !in m then Ok(None)
    else match m[k]
      case JNull => Ok(None)
      case JString(s) => Ok(Some(s))
      case JBool(b) => Ok(Some(if b then "true" else "false"))
      case JNumber(n) => Ok(Some(JavaString.IntToString(n)))
      case _ => Err
  }

  /** An `int` record component: a missing member is 0 (the record's
      default), a number is narrowed to 32 bits, a string is read by
      `Integer.parseInt`; an explicit null, which Gson refuses for a primitive
      record component, and anything else fail to decode. */
  function IntField(m: map<string, Json>, k: string): (r: Result<int>)
    ensures r.Ok? ==> JavaString.IntMin <= r.value <= JavaString.IntMax
    ensures k !in m ==> r == Ok(0)
    ensures k in m && m[k].JNumber? ==> r.Ok? && (r.value - m[k].n) % 0x1_0000_0000 == 0
    ensures k in m && m[k].JNumber? && JavaString.IntMin <= m[k].n <= JavaString.IntMax ==> r == Ok(m[k].n)
    ensures k in m && m[k].JString? ==>
      (r.Ok? <==> JavaString.ParseInt(m[k].s).Some?) && (r.Ok? ==> JavaString.ParseInt(m[k].s) == Some(r.value))
    ensures k in m && !m[k].JNumber? && !m[k].JString? ==> r.Err?
  {
    if k !in m then Ok(0)
    else match m[k]
      case JNumber(n) => Ok(JavaString.NarrowToInt(n))
      case JString(s) =>
        var v := JavaString.ParseInt(s);
        if v.Some? then Ok(v.value) else Err
      case _ => Err
  }

  /** A `boolean` record component: a missing member is false, a boolean is
      taken, a string is read by `Boolean.parseBoolean`; an explicit null and
      anything else fail to decode. */
  function BoolField(m: map<string, Json>, k: string): (r: Result<bool>)
    ensures k !in m ==> r == Ok(false)
    ensures k in m && m[k].JBool? ==> r == Ok(m[k].b)
    ensures k in m && m[k].JString? ==> r == Ok(JavaString.ParseBoolean(m[k].s))
    ensures k in m && !m[k].JBool? && !m[k].JString? ==> r.Err?
  {
    if k !in m then Ok(false)
    else match m[k]
      case JBool(b) => Ok(b)
      case JString(s) => Ok(JavaString.ParseBoolean(s))
      case _ => Err
  }

  /** `GSON.fromJson(obj, FabricLoaderVersion.class)`; `None` when it throws.
      Members other than the five components are ignored. */
  function Decode(m: map<string, Json>): (r: Option<LoaderVersion>)
    ensures r.Some? <==> (StringField(m, "separator").Ok? && IntField(m, "build").Ok? &&
                          StringField(m, "maven").Ok? && StringField(m, "version").Ok? && BoolField(m, "stable").Ok?)
    ensures r.Some? ==> r.value.separator == StringField(m, "separator").value
    ensures r.Some? ==> r.value.build == IntField(m, "build").value
    ensures r.Some? ==> r.value.maven == StringField(m, "maven").value
    ensures r.Some? ==> r.value.version == StringField(m, "version").value
    ensures r.Some? ==> r.value.stable == BoolField(m, "stable").value
  {
    var separator := StringField(m, "separator");
    var build := IntField(m, "build");
    var maven := StringField(m, "maven");
    var version := StringField(m, "version");
    var stable := BoolField(m, "stable");
    if separator.Err? || build.Err? || maven.Err? || version.Err? || stable.Err? then None
    else Some(LoaderVersion(separator.value, build.value, maven.value, version.value, stable.value))
  }

  /** `m` with the string member `k` added, unless the value is null. */
  function WithString(m: map<string, Json>, k: string, s: Option<string>): map<string, Json> {
    if s.Some? then m[k := JString(s.value)] else m
  }

  /** Gson's serialisation of a loader record. `Switchboard.GSON` does not
      serialise nulls, so a null component has no member. */
  function Encode(v: LoaderVersion): (r: map<string, Json>)
    ensures "loader" !in r
    ensures "build" in r && "stable" in r
    ensures ("separator" in r <==> v.separator.Some?) && ("maven" in r <==> v.maven.Some?) &&
            ("version" in r <==> v.version.Some?)
  {
    var numbers := map["build" := JNumber(v.build), "stable" := JBool(v.stable)];
    WithString(WithString(WithString(numbers, "separator", v.separator), "maven", v.maven), "version", v.version)
  }

  /** Every record whose build fits an `int` decodes back from its JSON form. */
  lemma DecodeEncode(v: LoaderVersion)
    requires JavaString.IntMin <= v.build <= JavaString.IntMax
    ensures Decode(Encode(v)) == Some(v)
  {
    var m := Encode(v);
    assert StringField(m, "separator") == Ok(v.separator);
    assert StringField(m, "maven") == Ok(v.maven);
    assert StringField(m, "version") == Ok(v.version);
    assert IntField(m, "build") == Ok(v.build);
    assert BoolField(m, "stable") == Ok(v.stable);
  }

  /** An `int` component written as the text of an `int` decodes to that
      `int`, as if it had been written as a number. */
  lemma IntFieldOfText(m: map<string, Json>, k: string, n: int)
    requires JavaString.IntMin <= n <= JavaString.IntMax
    ensures IntField(m[k := JString(JavaString.IntToString(n))], k) == Ok(n)
    ensures IntField(m[k := JString(JavaString.IntToString(n))], k) == IntField(m[k := JNumber(n)], k)
  {
    JavaString.ParseIntOfIntToString(n);
  }

  /** What one array element contributes: nothing when it is not an object
      or its `loader` member is not an object; otherwise the record decoded
      from the `loader` member when there is one, else from the element.
      `None` when decoding throws. */
  function ElementVersions(e: Json): (r: Option<seq<LoaderVersion>>)
    ensures r.Some? ==> |r.value| <= 1
    ensures !e.JObject? ==> r == Some([])
    ensures e.JObject? && "loader" in e.members && !e.members["loader"].JObject? ==> r == Some([])
  {
    if !e.JObject? then Some([])
    else
      var obj := e.members;
      if "loader" in obj && !obj["loader"].JObject? then Some([])
      else
        var target := if "loader" in obj then obj["loader"].members else obj;
        match Decode(target)
        case None => None
        case Some(v) => Some([v])
  }

  /** The records of a whole array, in order; `None` when any element fails
      to decode, which makes the whole parse throw. */
  function Entries(es: seq<Json>): (r: Option<seq<LoaderVersion>>)
    ensures r.Some? ==> |r.value| <= |es|
  {
    if |es| == 0 then Some([])
    else
      var init := Entries(es[..|es| - 1]);
      var last := ElementVersions(es[|es| - 1]);
      if init.None? || last.None? then None else Some(init.value + last.value)
  }

  /** Parsing two arrays one after the other. */
  lemma {:induction false} EntriesAppend(a: seq<Json>, b: seq<Json>)
    ensures Entries(a + b) == if Entries(a).None? || Entries(b).None? then None else Some(Entries(a).value + Entries(b).value)
    decreases |b|
  {
    if |b| == 0 {
      assert a + b == a;
      assert Entries(b) == Some([]);
      if Entries(a).Some? {
        assert Entries(a).value + [] == Entries(a).value;
      }
    } else {
      var b' := b[..|b| - 1];
      assert (a + b)[..|a + b| - 1] == a + b';
      assert (a + b)[|a + b| - 1] == b[|b| - 1];
      EntriesAppend(a, b');
      var last := ElementVersions(b[|b| - 1]);
      if Entries(a).Some? && Entries(b').Some? && last.Some? {
        assert (Entries(a).value + Entries(b').value) + last.value == Entries(a).value + (Entries(b').value + last.value);
      }
    }
  }

  /** A record arrives the same whether it is an element of its own or
      wrapped in a `loader` member. */
  lemma UnwrapLoader(v: LoaderVersion, rest: map<string, Json>)
    requires JavaString.IntMin <= v.build <= JavaString.IntMax
    ensures ElementVersions(JObject(Encode(v))) == Some([v])
    ensures ElementVersions(JObject(rest["loader" := JObject(Encode(v))])) == Some([v])
  {
    DecodeEncode(v);
  }

  /** `parseArray`: a null array gives the empty list. */
  function ParsedArray(arr: Option<seq<Json>>): (r: Option<seq<LoaderVersion>>)
    ensures arr.None? ==> r == Some([])
    ensures arr.Some? ==> r == Entries(arr.value)
  {
    if arr.None? then Some([]) else Entries(arr.value)
  }

  /** The loop of `parseArray` over a non-null array; `ok` is false when a
      decode throws. */
  method ParseArray(es: seq<Json>) returns (ok: bool, versions: seq<LoaderVersion>)
    ensures ok <==> Entries(es).Some?
    ensures ok ==> versions == Entries(es).value
  {
    versions := [];
    var i := 0;
    while i < |es|
      invariant 0 <= i <= |es|
      invariant Entries(es[..i]) == Some(versions)
    {
      EntriesStep(es, i);
      assert versions + [] == versions;
      var element := es[i];
      if element.JObject? {
        var obj := element.members;
        var skip := false;
        if "loader" in obj {
          if !obj["loader"].JObject? {
            skip := true;
          } else {
            obj := obj["loader"].members;
          }
        }
        assert skip ==> ElementVersions(element) == Some([]);
        if !skip {
          var decoded := Decode(obj);
          assert ElementVersions(element) == if decoded.None? then None else Some([decoded.value]);
          if decoded.None? {
            EntriesStuck(es, i + 1);
            return false, [];
          }
          versions := versions + [decoded.value];
        }
      }
      assert Entries(es[..i + 1]) == Some(versions);
      i := i + 1;
    }
    assert es[..i] == es;
    return true, versions;
  }

  lemma EntriesStep(es: seq<Json>, i: nat)
    requires i < |es|
    ensures Entries(es[..i + 1]) ==
      if Entries(es[..i]).None? || ElementVersions(es[i]).None? then None
      else Some(Entries(es[..i]).value + ElementVersions(es[i]).value)
  {
    assert es[..i + 1][..i] == es[..i];
    assert es[..i + 1][i] == es[i];
  }

  /** Once a prefix fails to parse, so does the whole array. */
  lemma EntriesStuck(es: seq<Json>, i: nat)
    requires i <= |es| && Entries(es[..i]).None?
    ensures Entries(es).None?
  {
    EntriesAppend(es[..i], es[i..]);
    assert es[..i] + es[i..] == es;
  }

  /** What a request for an array yields once parsed: `None` when the
      request fails or a decode throws. */
  function Outcome(f: Upstream.Fetch<Option<seq<Json>>>): Option<seq<LoaderVersion>> {
    if f.FetchFailed? then None else ParsedArray(f.value)
  }

  /** `cacheKeyFor`. */
  function CacheKeyFor(mc: Catalog.Version): (r: string)
    ensures r != "all"
    ensures JavaString.StartsWith(r, "mc:") && r[3..] == mc.id
  {
    var r := "mc:" + mc.id;
    assert r[..3] == "mc:" && r[3..] == mc.id && r[0] == 'm';
    r
  }

  /** Two base versions share a cache entry exactly when they share an id. */
  lemma CacheKeyInjective(a: Catalog.Version, b: Catalog.Version)
    ensures CacheKeyFor(a) == CacheKeyFor(b) <==> a.id == b.id
  {
    if CacheKeyFor(a) == CacheKeyFor(b) {
      assert CacheKeyFor(a)[3..] == CacheKeyFor(b)[3..];
    }
  }

  /** The list served for `key`: an active entry; else the fresh outcome; else
      the entry's (expired) value; else the empty list. */
  function Served(entries: map<string, TtlCache.Entry<seq<LoaderVersion>>>, key: string, now: int,
                  outcome: Option<seq<LoaderVersion>>): (r: seq<LoaderVersion>)
    ensures key in entries && now < entries[key].expiresAt ==> r == entries[key].value
    ensures !(key in entries && now < entries[key].expiresAt) && outcome.Some? ==> r == outcome.value
    ensures !(key in entries && now < entries[key].expiresAt) && outcome.None? ==>
      r == if key in entries then entries[key].value else []
  {
    if key in entries && entries[key].IsActive(now) then entries[key].value
    else if outcome.Some? then outcome.value
    else if key in entries then entries[key].value
    else []
  }

  /** The cache after serving `key`: replaced only when a request was made
      and succeeded. */
  function Stored(entries: map<string, TtlCache.Entry<seq<LoaderVersion>>>, key: string, now: int, ttl: int,
                  outcome: Option<seq<LoaderVersion>>): (r: map<string, TtlCache.Entry<seq<LoaderVersion>>>)
    ensures (key in entries && now < entries[key].expiresAt) || outcome.None? ==> r == entries
    ensures !(key in entries && now < entries[key].expiresAt) && outcome.Some? ==>
      r == entries[key := TtlCache.Entry(outcome.value, now + ttl)]
  {
    if (key in entries && entries[key].IsActive(now)) || outcome.None? then entries
    else entries[key := TtlCache.Entry(outcome.value, now + ttl)]
  }

  /** A value just stored is served again, without any request mattering,
      until it expires. */
  lemma StoredIsServed(entries: map<string, TtlCache.Entry<seq<LoaderVersion>>>, key: string, now: int, ttl: int,
                       outcome: Option<seq<LoaderVersion>>, later: int, next: Option<seq<LoaderVersion>>)
    requires !(key in entries && now < entries[key].expiresAt) && outcome.Some?
    requires now <= later < now + ttl
    ensures Served(Stored(entries, key, now, ttl, outcome), key, later, next) == outcome.value
  {
  }

  /** A failed refresh never loses a value that was there: the service
      falls back on it, expired or not. */
  lemma FailureFallsBack(entries: map<string, TtlCache.Entry<seq<LoaderVersion>>>, key: string, now: int, ttl: int)
    requires key in entries
    ensures Served(entries, key, now, None) == entries[key].value
    ensures Stored(entries, key, now, ttl, None) == entries
  {
  }

  /** The first record whose version text equals `v`, in list order. */
  function FirstWithVersion(list: seq<LoaderVersion>, v: string): (r: Option<LoaderVersion>)
    ensures r.Some? ==> r.value in list && r.value.version == Some(v)
    ensures r.None? <==> forall i :: 0 <= i < |list| ==> list[i].version != Some(v)
  {
    if |list| == 0 then None
    else if list[0].version == Some(v) then Some(list[0])
    else
      var rest := FirstWithVersion(list[1..], v);
      assert forall i :: 1 <= i < |list| ==> list[i] == list[1..][i - 1];
      rest
  }

  /** `fetchSingleVersion`: a failed request (non-200 status, I/O error or a
      body that is not an object) or a null body gives nothing; an object
      is decoded as it is, with no unwrapping of a `loader` member. */
  function SingleVersion(f: Upstream.Fetch<Option<Json>>): (r: Option<LoaderVersion>)
    ensures r.Some? ==> (f.Fetched? && f.value.Some? && f.value.value.JObject? &&
                         Decode(f.value.value.members) == r)
    ensures f.Fetched? && f.value.Some? && f.value.value.JObject? ==> r == Decode(f.value.value.members)
  {
    if f.FetchFailed? || f.value.None? || !f.value.value.JObject? then None
    else Decode(f.value.value.members)
  }

  /** The parsed outcome of the request for each catalog identifier. */
  function OutcomeFor(fetchFor: string -> Upstream.Fetch<Option<seq<Json>>>): string -> Option<seq<LoaderVersion>> {
    (id: string) => Outcome(fetchFor(id))
  }

  /** The catalog versions that yield at least one loader record when
      nothing is cached. */

  function HasLoaders(outcomeFor: string -> Option<seq<LoaderVersion>>): Catalog.Version -> bool {
    (mc: Catalog.Version) => FirstLoader(outcomeFor, mc).Some?
  }

  /** The first record the request for `mc` yields, if it yields any. */
  function FirstLoader(outcomeFor: string -> Option<seq<LoaderVersion>>, mc: Catalog.Version): Option<LoaderVersion> {
    var outcome := outcomeFor(mc.id);
    if outcome.Some? && |outcome.value| > 0 then Some(outcome.value[0]) else None
  }

  datatype Scan = Scan(entries: map<string, TtlCache.Entry<seq<LoaderVersion>>>, found: Option<LoaderVersion>)

  /** The scan of `latest()` over catalog indices `n - 1` down to 0: each
      step serves `versionsFor` (possibly storing), and the first non-empty
      list ends the scan with its first record. */
  function ScanDown(entries: map<string, TtlCache.Entry<seq<LoaderVersion>>>, ttl: int, vs: seq<Catalog.Version>,
                    n: nat, now: int, outcomeFor: string -> Option<seq<LoaderVersion>>): (r: Scan)
    requires n <= |vs|
    ensures r.found.Some? ==> n > 0
    decreases n
  {
    if n == 0 then Scan(entries, None)
    else
      var key := CacheKeyFor(vs[n - 1]);
      var outcome := outcomeFor(vs[n - 1].id);
      var served := Served(entries, key, now, outcome);
      var stored := Stored(entries, key, now, ttl, outcome);
      if |served| > 0 then Scan(stored, Some(served[0]))
      else ScanDown(stored, ttl, vs, n - 1, now, outcomeFor)
  }

  /** With nothing cached for the catalog and distinct identifiers, the scan
      returns the newest record of the catalog version at the largest index
      that has any: the oldest such base version, since the catalog lists
      the newest first. */
  lemma {:induction false} ColdScanFindsLastIndex(entries: map<string, TtlCache.Entry<seq<LoaderVersion>>>, ttl: int,
                                                  vs: seq<Catalog.Version>, n: nat, now: int,
                                                  outcomeFor: string -> Option<seq<LoaderVersion>>)
    requires n <= |vs|
    requires forall i :: 0 <= i < n ==> CacheKeyFor(vs[i]) !in entries
    requires forall i, j :: 0 <= i < j < n ==> vs[i].id != vs[j].id
    decreases n
    ensures var k := Streams.LastWhere(vs[..n], HasLoaders(outcomeFor));
      ScanDown(entries, ttl, vs, n, now, outcomeFor).found ==
        if k == -1 then None else FirstLoader(outcomeFor, vs[k])
  {
    if n > 0 {
      var v := vs[n - 1];
      ColdStep(entries, ttl, vs, n, now, outcomeFor);
      if FirstLoader(outcomeFor, v).None? {
        var stored := Stored(entries, CacheKeyFor(v), now, ttl, outcomeFor(v.id));
        ColdScanFindsLastIndex(stored, ttl, vs, n - 1, now, outcomeFor);
      }
      ScanFound(entries, ttl, vs, n, now, outcomeFor);
    }
  }

  /** The answer of a scan step is the lemma's: the step's own record when
      its version has loaders, otherwise what the scan below finds. */
  lemma ScanFound(entries: map<string, TtlCache.Entry<seq<LoaderVersion>>>, ttl: int,
                  vs: seq<Catalog.Version>, n: nat, now: int, outcomeFor: string -> Option<seq<LoaderVersion>>)
    requires 0 < n <= |vs|
    requires var v := vs[n - 1]; FirstLoader(outcomeFor, v).Some? ==>
      ScanDown(entries, ttl, vs, n, now, outcomeFor).found == FirstLoader(outcomeFor, v)
    requires var v := vs[n - 1]; var stored := Stored(entries, CacheKeyFor(v), now, ttl, outcomeFor(v.id));
      var k := Streams.LastWhere(vs[..n - 1], HasLoaders(outcomeFor));
      FirstLoader(outcomeFor, v).None? ==>
        ScanDown(entries, ttl, vs, n, now, outcomeFor).found == ScanDown(stored, ttl, vs, n - 1, now, outcomeFor).found &&
        ScanDown(stored, ttl, vs, n - 1, now, outcomeFor).found == if k == -1 then None else FirstLoader(outcomeFor, vs[k])
    ensures var k := Streams.LastWhere(vs[..n], HasLoaders(outcomeFor));
      ScanDown(entries, ttl, vs, n, now, outcomeFor).found ==
        if k == -1 then None else FirstLoader(outcomeFor, vs[k])
  {
    Streams.LastWherePrefix(vs, n, HasLoaders(outcomeFor));
  }

  /** One cold step of the scan: a version with loaders ends it with its
      first record; otherwise the scan goes on below, with at most that
      version's key stored. */
  lemma ColdStep(entries: map<string, TtlCache.Entry<seq<LoaderVersion>>>, ttl: int,
                 vs: seq<Catalog.Version>, n: nat, now: int,
                 outcomeFor: string -> Option<seq<LoaderVersion>>)
    requires 0 < n <= |vs|
    requires forall i :: 0 <= i < n ==> CacheKeyFor(vs[i]) !in entries
    requires forall i, j :: 0 <= i < j < n ==> vs[i].id != vs[j].id
    ensures var v := vs[n - 1]; FirstLoader(outcomeFor, v).Some? ==>
      ScanDown(entries, ttl, vs, n, now, outcomeFor).found == FirstLoader(outcomeFor, v)
    ensures var v := vs[n - 1]; var stored := Stored(entries, CacheKeyFor(v), now, ttl, outcomeFor(v.id));
      FirstLoader(outcomeFor, v).None? ==>
        ScanDown(entries, ttl, vs, n, now, outcomeFor) == ScanDown(stored, ttl, vs, n - 1, now, outcomeFor) &&
        forall i :: 0 <= i < n - 1 ==> CacheKeyFor(vs[i]) !in stored
  {
    var v := vs[n - 1];
    var key := CacheKeyFor(v);
    var outcome := outcomeFor(v.id);
    var stored := Stored(entries, key, now, ttl, outcome);
    ColdServed(entries, key, now, ttl, outcome);
    forall i | 0 <= i < n - 1
      ensures CacheKeyFor(vs[i]) !in stored
    {
      CacheKeyInjective(vs[i], v);
    }
  }

  /** Serving a key that is not cached: the outcome, or the empty list, and
      at most that key is added. */
  lemma ColdServed(entries: map<string, TtlCache.Entry<seq<LoaderVersion>>>, key: string, now: int, ttl: int,
                   outcome: Option<seq<LoaderVersion>>)
    requires key !in entries
    ensures Served(entries, key, now, outcome) == if outcome.Some? then outcome.value else []
    ensures forall k :: k in Stored(entries, key, now, ttl, outcome) ==> k in entries || k == key
  {
  }

  /** The service state: the cache of the (not shown) base class and the
      memoised `latest()` answer. */
  class FabricService {
    const store: Upstream.ServiceCache<seq<LoaderVersion>>
    var latestCached: Option<LoaderVersion>

    constructor (ttlMillis: int)
      ensures fresh(store) && store.entries == map[] && store.ttl == ttlMillis
      ensures latestCached.None?
    {
      store := new Upstream.ServiceCache(ttlMillis);
      latestCached := None;
    }

    /** The body shared by `allVersions` and `versionsFor`: an active entry
        is served without a request; otherwise a successful request replaces
        the entry and is served, and a failed one is logged and falls back on
        the previous value, expired or not, or on the empty list. Nothing
        is thrown. */
    method Lookup(key: string, now: int, fetched: Upstream.Fetch<Option<seq<Json>>>) returns (r: seq<LoaderVersion>)
      modifies store
      ensures r == Served(old(store.entries), key, now, Outcome(fetched))
      ensures store.entries == Stored(old(store.entries), key, now, old(store.ttl), Outcome(fetched))
      ensures store.ttl == old(store.ttl)
    {
      var entry := if key in store.entries then Some(store.entries[key]) else None;
      if entry.Some? && entry.value.IsActive(now) {
        return entry.value.value;
      }
      var ok := false;
      var parsed: seq<LoaderVersion> := [];
      if fetched.Fetched? {
        if fetched.value.None? {
          ok := true;
        } else {
          ok, parsed := ParseArray(fetched.value.value);
        }
      }
      if ok {
        store.Store(key, parsed, now);
        return parsed;
      }
      return if entry.Some? then entry.value.value else [];
    }

    /** `allVersions`, which is also `listAllVersions(p)` for either flag. */
    method AllVersions(now: int, fetched: Upstream.Fetch<Option<seq<Json>>>) returns (r: seq<LoaderVersion>)
      modifies store
      ensures r == Served(old(store.entries), "all", now, Outcome(fetched))
      ensures store.entries == Stored(old(store.entries), "all", now, old(store.ttl), Outcome(fetched))
      ensures store.ttl == old(store.ttl)
    {
      r := Lookup("all", now, fetched);
    }

    /** `versionsFor(mc)`, which is also `listVersionsFor(mc, p)` for either
        flag. */
    method VersionsFor(mc: Catalog.Version, now: int, fetched: Upstream.Fetch<Option<seq<Json>>>) returns (r: seq<LoaderVersion>)
      modifies store
      ensures r == Served(old(store.entries), CacheKeyFor(mc), now, Outcome(fetched))
      ensures store.entries == Stored(old(store.entries), CacheKeyFor(mc), now, old(store.ttl), Outcome(fetched))
      ensures store.ttl == old(store.ttl)
    {
      r := Lookup(CacheKeyFor(mc), now, fetched);
    }

    /** `latestFor(mc, p)` for either flag: the first record of
        `versionsFor(mc)`. */
    method LatestFor(mc: Catalog.Version, now: int, fetched: Upstream.Fetch<Option<seq<Json>>>) returns (r: Option<LoaderVersion>)
      modifies store
      ensures var served := Served(old(store.entries), CacheKeyFor(mc), now, Outcome(fetched));
        r == if |served| == 0 then None else Some(served[0])
      ensures store.entries == Stored(old(store.entries), CacheKeyFor(mc), now, old(store.ttl), Outcome(fetched))
      ensures store.ttl == old(store.ttl)
    {
      var list := VersionsFor(mc, now, fetched);
      return if |list| == 0 then None else Some(list[0]);
    }

    /** `findVersion(mc, version)`: nothing for a null or empty version;
        otherwise the first listed record with that version text, and only
        when there is none, the single-version request (`singleRequested`). */
    method FindVersion(mc: Catalog.Version, version: Option<string>, now: int,
                       fetched: Upstream.Fetch<Option<seq<Json>>>, single: Upstream.Fetch<Option<Json>>)
      returns (r: Option<LoaderVersion>, singleRequested: bool)
      modifies store
      ensures version.None? || version.value == "" ==>
        r.None? && !singleRequested && store.entries == old(store.entries)
      ensures version.Some? && version.value != "" ==>
        var listed := FirstWithVersion(Served(old(store.entries), CacheKeyFor(mc), now, Outcome(fetched)), version.value);
        (singleRequested <==> listed.None?) &&
        r == (if listed.Some? then listed else SingleVersion(single)) &&
        store.entries == Stored(old(store.entries), CacheKeyFor(mc), now, old(store.ttl), Outcome(fetched))
      ensures store.ttl == old(store.ttl)
    {
      if version.None? || version.value == "" {
        return None, false;
      }
      var list := VersionsFor(mc, now, fetched);
      var listed := FirstWithVersion(list, version.value);
      if listed.Some? {
        return listed, false;
      }
      return SingleVersion(single), true;
    }

    /** `latest()`: a memoised answer is returned at once; otherwise the
        catalog is scanned from its last index down, each step serving
        `versionsFor` with that base version's request outcome, and the
        first record found is memoised and returned. */
    method Latest(vs: seq<Catalog.Version>, now: int, fetchFor: string -> Upstream.Fetch<Option<seq<Json>>>)
      returns (r: Option<LoaderVersion>)
      modifies this, store
      ensures old(latestCached).Some? ==> r == old(latestCached) && store.entries == old(store.entries) && latestCached == old(latestCached)
      ensures old(latestCached).None? ==>
        var scan := ScanDown(old(store.entries), old(store.ttl), vs, |vs|, now, OutcomeFor(fetchFor));
        r == scan.found && store.entries == scan.entries && latestCached == scan.found
      ensures store.ttl == old(store.ttl)
    {
      if latestCached.Some? {
        return latestCached;
      }
      var i := |vs|;
      while i > 0
        invariant 0 <= i <= |vs|
        invariant store.ttl == old(store.ttl) && latestCached.None?
        invariant ScanDown(store.entries, store.ttl, vs, i, now, OutcomeFor(fetchFor)) ==
          ScanDown(old(store.entries), old(store.ttl), vs, |vs|, now, OutcomeFor(fetchFor))
      {
        var found := VersionsFor(vs[i - 1], now, fetchFor(vs[i - 1].id));
        if |found| > 0 {
          latestCached := Some(found[0]);
          return latestCached;
        }
        i := i - 1;
      }
      return None;
    }

    /** `forceRefresh(p)` for either flag: `"all"` is removed and served
        again (a failed request then leaves it absent), and then every
        catalog version's entry is removed. The memoised `latest()` answer
        is kept. */
    method ForceRefresh(vs: seq<Catalog.Version>, now: int, fetched: Upstream.Fetch<Option<seq<Json>>>)
      modifies store
      ensures var reloaded := Stored(old(store.entries) - {"all"}, "all", now, old(store.ttl), Outcome(fetched));
        store.entries == reloaded - (set mc | mc in vs :: CacheKeyFor(mc))
      ensures store.ttl == old(store.ttl)
    {
      store.Remove("all");
      var _ := AllVersions(now, fetched);
      RemoveKeysOf(vs);
    }

    /** The loop of `forceRefresh` that drops each catalog version's entry. */
    method RemoveKeysOf(vs: seq<Catalog.Version>)
      modifies store
      ensures store.entries == old(store.entries) - (set mc | mc in vs :: CacheKeyFor(mc))
      ensures store.ttl == old(store.ttl)
    {
      var i := 0;
      while i < |vs|
        invariant 0 <= i <= |vs|
        invariant store.ttl == old(store.ttl)
        invariant store.entries == old(store.entries) - (set j | 0 <= j < i :: CacheKeyFor(vs[j]))
      {
        store.Remove(CacheKeyFor(vs[i]));
        assert (set j | 0 <= j < i + 1 :: CacheKeyFor(vs[j])) == (set j | 0 <= j < i :: CacheKeyFor(vs[j])) + {CacheKeyFor(vs[i])};
        i := i + 1;
      }
      assert (set j | 0 <= j < |vs| :: CacheKeyFor(vs[j])) == (set mc | mc in vs :: CacheKeyFor(mc));
    }
  }
}
