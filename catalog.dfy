/** The base-version catalog (`MinecraftVersion`): the process-wide list of
    base versions read from the launcher manifest, in the manifest's own order
    (index 0 is the newest entry, nothing is sorted), and the two "latest"
    references. The read-only queries are functions of the list `vs` (and of the
    references); `VersionCatalog` holds the state and the operations that loop
    over it or replace it. */
module Catalog {
  import opened Wrappers
  import JavaString
  import Streams

  datatype VersionType = Release | Snapshot | OldBeta | OldAlpha

  /** The manifest's spelling of a type. */
  function TypeName(t: VersionType): string {
    match t
    case Release => "release"
    case Snapshot => "snapshot"
    case OldBeta => "old_beta"
    case OldAlpha => "old_alpha"
  }

  /** `VersionType.fromString`: case-insensitive match of the four names. */
  function TypeFromString(s: string): (r: Option<VersionType>)
    ensures r.Some? ==> JavaString.ToLowerAscii(s) == TypeName(r.value)
  {
    match JavaString.ToLowerAscii(s)
    case "release" => Some(Release)
    case "snapshot" => Some(Snapshot)
    case "old_beta" => Some(OldBeta)
    case "old_alpha" => Some(OldAlpha)
    case _ => None
  }

  lemma TypeFromStringOfName(t: VersionType, s: string)
    requires JavaString.ToLowerAscii(s) == TypeName(t)
    ensures TypeFromString(s) == Some(t)
  {
  }

  /** A base version; `time` and `releaseTime` are instants as integers. */
  datatype Version = Version(id: string, vtype: VersionType, url: string, time: int, releaseTime: int) {
    predicate IsRelease() {
      vtype == Release
    }
  }

  /** `compareTo`: the order of the release instants (only the sign of the
      answer is modelled). */
  function CompareTo(a: Version, b: Version): (r: int)
    ensures r < 0 <==> a.releaseTime < b.releaseTime
    ensures r == 0 <==> a.releaseTime == b.releaseTime
    ensures r > 0 <==> a.releaseTime > b.releaseTime
  {
    if a.releaseTime < b.releaseTime then -1 else if a.releaseTime == b.releaseTime then 0 else 1
  }

  /** No version occurs twice in the list. */
  ghost predicate Distinct(vs: seq<Version>) {
    forall i, j :: 0 <= i < j < |vs| ==> vs[i] != vs[j]
  }

  lemma IndexOfDistinct(vs: seq<Version>, i: int)
    requires Distinct(vs) && 0 <= i < |vs|
    ensures Streams.IndexOf(vs, vs[i]) == i
  {
  }

  /** The first index of an entry with identifier `id`, or -1. */
  function IdIndex(vs: seq<Version>, id: string): (r: int)
    ensures -1 <= r < |vs|
    ensures r == -1 <==> forall j :: 0 <= j < |vs| ==> vs[j].id != id
    ensures r != -1 ==> vs[r].id == id && forall j :: 0 <= j < r ==> vs[j].id != id
  {
    if |vs| == 0 then -1
    else if vs[0].id == id then 0
    else
      var k := IdIndex(vs[1..], id);
      if k == -1 then -1 else k + 1
  }

  /** `fromId`: the first entry with that identifier. */
  function FromId(vs: seq<Version>, id: string): (r: Option<Version>)
    ensures r.None? <==> forall j :: 0 <= j < |vs| ==> vs[j].id != id
    ensures r.Some? ==> exists i :: 0 <= i < |vs| && vs[i] == r.value && r.value.id == id &&
                                    forall j :: 0 <= j < i ==> vs[j].id != id
  {
    var k := IdIndex(vs, id);
    if k == -1 then None else Some(vs[k])
  }

  /** `getPreviousVersion`: the entry one index further on (an older entry
      in the manifest's newest-first order); null when `v` is absent or last. */
  function PreviousVersion(vs: seq<Version>, v: Version): (r: Option<Version>)
    ensures r.Some? <==> v in vs && Streams.IndexOf(vs, v) < |vs| - 1
    ensures r.Some? ==> r.value == vs[Streams.IndexOf(vs, v) + 1]
  {
    var index := Streams.IndexOf(vs, v);
    if index == -1 || index == |vs| - 1 then None else Some(vs[index + 1])
  }

  /** `getNextVersion`: the entry one index back; null when the index is 0
      or `v` is absent. */
  function NextVersion(vs: seq<Version>, v: Version): (r: Option<Version>)
    ensures r.Some? <==> v in vs && Streams.IndexOf(vs, v) > 0
    ensures r.Some? ==> r.value == vs[Streams.IndexOf(vs, v) - 1]
  {
    var index := Streams.IndexOf(vs, v);
    if index <= 0 then None else Some(vs[index - 1])
  }

  /** In a list without repeated entries, stepping back after stepping
      forward returns to the start, and the other way round. */
  lemma NextOfPrevious(vs: seq<Version>, v: Version)
    requires Distinct(vs)
    requires PreviousVersion(vs, v).Some?
    ensures NextVersion(vs, PreviousVersion(vs, v).value) == Some(v)
  {
    var i := Streams.IndexOf(vs, v);
    IndexOfDistinct(vs, i + 1);
  }

  lemma PreviousOfNext(vs: seq<Version>, v: Version)
    requires Distinct(vs)
    requires NextVersion(vs, v).Some?
    ensures PreviousVersion(vs, NextVersion(vs, v).value) == Some(v)
  {
    var i := Streams.IndexOf(vs, v);
    IndexOfDistinct(vs, i - 1);
  }

  /** `getVersionsAfter(v, inclusive)`: the entries before `v` (and `v` itself
      when inclusive); empty when `v` is absent or is the last entry, even when
      inclusive. */
  function VersionsAfter(vs: seq<Version>, v: Version, inclusive: bool): (r: seq<Version>)
    ensures v !in vs || Streams.IndexOf(vs, v) == |vs| - 1 ==> r == []
    ensures v in vs && Streams.IndexOf(vs, v) < |vs| - 1 ==>
      r == vs[..if inclusive then Streams.IndexOf(vs, v) + 1 else Streams.IndexOf(vs, v)]
  {
    var index := Streams.IndexOf(vs, v);
    if index == -1 || index == |vs| - 1 then []
    else vs[..if inclusive then index + 1 else index]
  }

  /** The inclusive listing is the exclusive one followed by `v`; the
      exclusive one never holds `v`. */
  lemma VersionsAfterInclusive(vs: seq<Version>, v: Version)
    requires v in vs && Streams.IndexOf(vs, v) < |vs| - 1
    ensures VersionsAfter(vs, v, true) == VersionsAfter(vs, v, false) + [v]
    ensures v !in VersionsAfter(vs, v, false)
  {
    var i := Streams.IndexOf(vs, v);
    assert vs[..i + 1] == vs[..i] + [vs[i]];
  }

  /** The release with the greatest release instant, the first one on ties
      (`Stream.max` keeps the earlier of two equal elements). */
  function MaxRelease(vs: seq<Version>): (r: Option<Version>)
    ensures r.None? <==> forall j :: 0 <= j < |vs| ==> !vs[j].IsRelease()
    ensures r.Some? ==> r.value.IsRelease()
    ensures r.Some? ==> forall j :: 0 <= j < |vs| && vs[j].IsRelease() ==> vs[j].releaseTime <= r.value.releaseTime
    ensures r.Some? ==> exists i :: 0 <= i < |vs| && vs[i] == r.value &&
                          forall j :: 0 <= j < i && vs[j].IsRelease() ==> vs[j].releaseTime < r.value.releaseTime
  {
    if |vs| == 0 then None
    else
      var init := vs[..|vs| - 1];
      var x := vs[|vs| - 1];
      var m := MaxRelease(init);
      assert forall j :: 0 <= j < |init| ==> init[j] == vs[j];
      if !x.IsRelease() then m
      else if m.Some? && CompareTo(m.value, x) >= 0 then m
      else Some(x)
  }

  /** `determineBestFit`: the latest release, else the first entry, else null. */
  function DetermineBestFit(vs: seq<Version>): (r: Option<Version>)
    ensures r.None? <==> |vs| == 0
    ensures (exists j :: 0 <= j < |vs| && vs[j].IsRelease()) ==> r == MaxRelease(vs)
    ensures (forall j :: 0 <= j < |vs| ==> !vs[j].IsRelease()) && |vs| > 0 ==> r == Some(vs[0])
  {
    var m := MaxRelease(vs);
    if m.Some? then m else if |vs| == 0 then None else Some(vs[0])
  }

  /** `getLatestVersion()`: of the two references, the stable one only when it
      was released strictly later; ties go to the snapshot. */
  function LatestVersion(stable: Option<Version>, snapshot: Option<Version>): (r: Option<Version>)
    ensures r.None? <==> stable.None? && snapshot.None?
    ensures r.Some? ==> r == stable || r == snapshot
    ensures stable.Some? && snapshot.Some? ==>
      (r == stable <==> stable.value.releaseTime > snapshot.value.releaseTime) || stable == snapshot
    ensures stable.None? ==> r == snapshot
    ensures snapshot.None? ==> r == stable
  {
    if stable.None? && snapshot.None? then None
    else if stable.None? then snapshot
    else if snapshot.None? then stable
    else if stable.value.releaseTime > snapshot.value.releaseTime then stable
    else snapshot
  }

  /** `isLatest`: `v` is one of the two latest references; then there is a
      latest version, and it is not older than `v`. */
  function IsLatest(stable: Option<Version>, snapshot: Option<Version>, v: Version): (r: bool)
    ensures r ==> LatestVersion(stable, snapshot).Some? && v.releaseTime <= LatestVersion(stable, snapshot).value.releaseTime
  {
    stable == Some(v) || snapshot == Some(v)
  }

  /** Both references test as latest, the older one too, and nothing else
      does. */
  lemma ReferencesAreLatest(stable: Option<Version>, snapshot: Option<Version>, v: Version)
    ensures stable.Some? ==> IsLatest(stable, snapshot, stable.value)
    ensures snapshot.Some? ==> IsLatest(stable, snapshot, snapshot.value)
    ensures IsLatest(stable, snapshot, v) ==> Some(v) == stable || Some(v) == snapshot
  {
  }

  /** Whatever `getLatestVersion()` answers is one of the latest versions, and
      no reference was released after it. */
  lemma LatestVersionIsNewest(stable: Option<Version>, snapshot: Option<Version>)
    requires LatestVersion(stable, snapshot).Some?
    ensures IsLatest(stable, snapshot, LatestVersion(stable, snapshot).value)
    ensures stable.Some? ==> stable.value.releaseTime <= LatestVersion(stable, snapshot).value.releaseTime
    ensures snapshot.Some? ==> snapshot.value.releaseTime <= LatestVersion(stable, snapshot).value.releaseTime
  {
  }

  /** The largest index below `k` holding an entry of type `t`, or -1. */
  function LastIndexOfType(vs: seq<Version>, t: VersionType, k: nat): (r: int)
    requires k <= |vs|
    ensures -1 <= r < k
    ensures r == -1 <==> forall j :: 0 <= j < k ==> vs[j].vtype != t
    ensures r != -1 ==> vs[r].vtype == t && forall j :: r < j < k ==> vs[j].vtype != t
    decreases k
  {
    if k == 0 then -1
    else if vs[k - 1].vtype == t then k - 1
    else LastIndexOfType(vs, t, k - 1)
  }

  /** An entry of type `t` with none after it below `k` is the last one. */
  lemma LastIndexOfTypeAt(vs: seq<Version>, t: VersionType, k: nat, i: nat)
    requires i < k <= |vs| && vs[i].vtype == t
    requires forall j :: i < j < k ==> vs[j].vtype != t
    ensures LastIndexOfType(vs, t, k) == i
  {
    var r := LastIndexOfType(vs, t, k);
    assert r != -1 && !(r < i) && !(i < r);
  }

  /** The smallest index from `k` on holding an entry of type `t`, or -1. */
  function FirstIndexOfType(vs: seq<Version>, t: VersionType, k: nat): (r: int)
    ensures r == -1 || k <= r < |vs|
    ensures r == -1 <==> forall j :: k <= j < |vs| ==> vs[j].vtype != t
    ensures r != -1 ==> vs[r].vtype == t && forall j :: k <= j < r ==> vs[j].vtype != t
    decreases |vs| - k
  {
    if k >= |vs| then -1
    else if vs[k].vtype == t then k
    else FirstIndexOfType(vs, t, k + 1)
  }

  /** An entry of type `t` with none before it from `k` on is the first one. */
  lemma FirstIndexOfTypeAt(vs: seq<Version>, t: VersionType, k: nat, i: nat)
    requires k <= i < |vs| && vs[i].vtype == t
    requires forall j :: k <= j < i ==> vs[j].vtype != t
    ensures FirstIndexOfType(vs, t, k) == i
  {
    var r := FirstIndexOfType(vs, t, k);
    assert r != -1 && !(r < i) && !(i < r);
  }

  /** The entry of type `t` with the largest index, if any. */
  function LastOfType(vs: seq<Version>, t: VersionType): (r: Option<Version>)
    ensures r.None? <==> forall j :: 0 <= j < |vs| ==> vs[j].vtype != t
    ensures r.Some? ==> r.value.vtype == t
    ensures r.Some? ==> exists i :: 0 <= i < |vs| && vs[i] == r.value && forall j :: i < j < |vs| ==> vs[j].vtype != t
  {
    var i := LastIndexOfType(vs, t, |vs|);
    if i == -1 then None else Some(vs[i])
  }

  /** `findClosestRelease`: `v` itself when it is a release; otherwise the
      nearest release at a smaller index, else the nearest at a larger index. */
  function ClosestRelease(vs: seq<Version>, v: Version): (r: Option<Version>)
    ensures r.Some? ==> r.value.IsRelease()
    ensures v.IsRelease() ==> r == Some(v)
    ensures !v.IsRelease() && v !in vs ==> r.None?
    ensures !v.IsRelease() && v in vs ==> (r.None? <==> forall j :: 0 <= j < |vs| ==> !vs[j].IsRelease())
    ensures !v.IsRelease() && r.Some? ==> r.value in vs
    ensures !v.IsRelease() && v in vs && r.Some? ==> var k := Streams.IndexOf(vs, v);
      exists j :: 0 <= j < |vs| && vs[j] == r.value &&
        ((j < k && forall i :: j < i < k ==> !vs[i].IsRelease()) ||
         (k < j && (forall i :: 0 <= i < k ==> !vs[i].IsRelease()) && forall i :: k < i < j ==> !vs[i].IsRelease()))
  {
    if v.IsRelease() then Some(v)
    else
      var index := Streams.IndexOf(vs, v);
      if index == -1 then None
      else
        var below := LastIndexOfType(vs, Release, index);
        if below != -1 then Some(vs[below])
        else
          var above := FirstIndexOfType(vs, Release, index + 1);
          if above != -1 then Some(vs[above]) else None
  }

  /** The two searches of `findClosestRelease` decide its answer. */
  lemma ClosestReleaseSteps(vs: seq<Version>, v: Version, index: int, below: int, above: int)
    requires !v.IsRelease() && index == Streams.IndexOf(vs, v) && index != -1
    requires below == LastIndexOfType(vs, Release, index)
    requires above == FirstIndexOfType(vs, Release, index + 1)
    ensures ClosestRelease(vs, v) == if below != -1 then Some(vs[below]) else if above != -1 then Some(vs[above]) else None
  {
  }

  /** The first two dot-separated components, when there are two; the label
      is then a prefix of the identifier. */
  function MajorPrefix(id: string): (r: Option<string>)
    ensures r.Some? <==> |JavaString.Split(id, '.')| >= 2
    ensures r.Some? ==> r.value == JavaString.Split(id, '.')[0] + "." + JavaString.Split(id, '.')[1]
    ensures r.Some? ==> JavaString.StartsWith(id, r.value)
  {
    var split := JavaString.Split(id, '.');
    if |split| < 2 then None
    else
      var ps := JavaString.Pieces(id, '.');
      assert '.' in id;
      assert split[0] == ps[0] && split[1] == ps[1];
      JavaString.PiecesFirstTwoPrefix(id, '.');
      Some(split[0] + "." + split[1])
  }

  /** Static `getMajorVersion`: the catalog entry named by the first two
      components of the (closest) release's identifier. */
  function MajorVersion(vs: seq<Version>, v: Version): (r: Option<Version>)
    ensures r.Some? ==> r.value in vs
    ensures v.IsRelease() && |JavaString.Split(v.id, '.')| < 2 ==> r.None?
    ensures v.IsRelease() && MajorPrefix(v.id).Some? ==> r == FromId(vs, MajorPrefix(v.id).value)
    ensures !v.IsRelease() && ClosestRelease(vs, v).None? ==> r.None?
    ensures !v.IsRelease() && ClosestRelease(vs, v).Some? ==> var c := ClosestRelease(vs, v).value;
      r == if MajorPrefix(c.id).Some? then FromId(vs, MajorPrefix(c.id).value) else None
    decreases if v.IsRelease() then 0 else 1
  {
    if !v.IsRelease() then
      match ClosestRelease(vs, v)
      case None => None
      case Some(c) => MajorVersion(vs, c)
    else
      match MajorPrefix(v.id)
      case None => None
      case Some(p) => FromId(vs, p)
  }

  /** Instance `getMajorVersion`: the label "a.b" of the (closest) release, or
      the identifier itself when there is no such label. */
  function MajorVersionLabel(vs: seq<Version>, v: Version): (r: string)
    ensures v.IsRelease() ==> r == MajorPrefix(v.id).GetOr(v.id)
    ensures !v.IsRelease() && ClosestRelease(vs, v).None? ==> r == v.id
    ensures !v.IsRelease() && ClosestRelease(vs, v).Some? ==> var c := ClosestRelease(vs, v).value;
      r == MajorPrefix(c.id).GetOr(c.id)
    decreases if v.IsRelease() then 0 else 1
  {
    if !v.IsRelease() then
      match ClosestRelease(vs, v)
      case None => v.id
      case Some(c) => MajorVersionLabel(vs, c)
    else
      match MajorPrefix(v.id)
      case None => v.id
      case Some(p) => p
  }

  /** The instance label is the identifier of the static major version,
      whenever the catalog holds it. */
  lemma {:induction false} MajorVersionMatchesLabel(vs: seq<Version>, v: Version)
    requires MajorVersion(vs, v).Some?
    ensures MajorVersion(vs, v).value.id == MajorVersionLabel(vs, v)
    decreases if v.IsRelease() then 0 else 1
  {
    if !v.IsRelease() {
      MajorVersionMatchesLabel(vs, ClosestRelease(vs, v).value);
    }
  }

  /** A release whose identifier is its own label keeps it. */
  lemma MajorPrefixIdempotent(id: string)
    requires MajorPrefix(id).Some?
    ensures MajorPrefix(MajorPrefix(id).value).GetOr(MajorPrefix(id).value) == MajorPrefix(id).value
  {
    var split := JavaString.Split(id, '.');
    var p0, p1 := split[0], split[1];
    var p := p0 + "." + p1;
    JavaString.PiecesOfJoin(p0, '.', p1);
    assert p == p0 + ['.'] + p1;
    assert '.' in p by { assert p[|p0|] == '.'; }
  }

  /** A member of a manifest entry as the handler reads it: absent (`has`
      fails), present with a readable value, or present but unreadable. A
      member is unreadable when `getAsString` throws on it (JSON null, an
      object, an array that does not hold exactly one element) or, for the
      two instants, when `LocalDateTime.parse` rejects its text. */
  datatype Member<T> = Absent | Present(value: T) | Unreadable

  /** One element of the manifest's `versions` array. The instants are
      already parsed (`split("\\+")[0]` and `LocalDateTime.parse` are not
      part of this model beyond their failure). */
  datatype ManifestEntry =
    | NotAnObject
    | ManifestEntry(id: Member<string>, vtype: Member<string>, url: Member<string>,
                    time: Member<int>, releaseTime: Member<int>)

  datatype LatestIds = LatestIds(release: Option<string>, snapshot: Option<string>)

  /** The manifest document: its `versions` array and `latest` object, each
      `None` when missing. */
  datatype Manifest = Manifest(versions: Option<seq<ManifestEntry>>, latest: Option<LatestIds>)

  /** The entry is an object holding all five members. */
  predicate HasAllMembers(e: ManifestEntry) {
    e.ManifestEntry? && !e.id.Absent? && !e.vtype.Absent? && !e.url.Absent? && !e.time.Absent? &&
    !e.releaseTime.Absent?
  }

  /** The version built from one entry, or `None` when the entry is skipped:
      a required member is missing or the type is not recognised. */
  function EntryVersion(e: ManifestEntry): (r: Option<Version>)
    ensures r.Some? <==> e.ManifestEntry? && e.id.Present? && e.vtype.Present? && e.url.Present? &&
                         e.time.Present? && e.releaseTime.Present? && TypeFromString(e.vtype.value).Some?
    ensures r.Some? ==> r.value == Version(e.id.value, TypeFromString(e.vtype.value).value, e.url.value,
                                           e.time.value, e.releaseTime.value)
  {
    if e.NotAnObject? then None
    else if !e.id.Present? || !e.vtype.Present? || !e.url.Present? || !e.time.Present? || !e.releaseTime.Present?
    then None
    else match TypeFromString(e.vtype.value)
      case None => None
      case Some(t) => Some(Version(e.id.value, t, e.url.value, e.time.value, e.releaseTime.value))
  }

  /** Reading the entry throws: it is not an object, or it has all five
      members and one that the handler reads is unreadable. The identifier
      and the type are read first; the URL and the instants only once the
      type is recognised. */
  function EntryThrows(e: ManifestEntry): (r: bool)
    ensures e.NotAnObject? ==> r
    ensures e.ManifestEntry? && !HasAllMembers(e) ==> !r
    ensures r ==> e.NotAnObject? || e.id.Unreadable? || e.vtype.Unreadable? || e.url.Unreadable? ||
                  e.time.Unreadable? || e.releaseTime.Unreadable?
    ensures EntryVersion(e).Some? ==> !r
  {
    e.NotAnObject? ||
    (HasAllMembers(e) &&
     (e.id.Unreadable? || e.vtype.Unreadable? ||
      (e.vtype.Present? && TypeFromString(e.vtype.value).Some? &&
       (e.url.Unreadable? || e.time.Unreadable? || e.releaseTime.Unreadable?))))
  }

  /** An entry whose type is not recognised is skipped before its URL and
      instants are read, so they cannot make it throw; an unreadable
      identifier still does. */
  lemma UnknownTypeSkipsRest(e: ManifestEntry)
    requires HasAllMembers(e) && e.vtype.Present? && TypeFromString(e.vtype.value).None?
    ensures EntryVersion(e).None?
    ensures EntryThrows(e) <==> e.id.Unreadable?
  {
  }

  ghost predicate AllReadable(es: seq<ManifestEntry>) {
    forall i :: 0 <= i < |es| ==> !EntryThrows(es[i])
  }

  lemma AllReadableStep(es: seq<ManifestEntry>, i: nat)
    requires i < |es| && AllReadable(es[..i]) && !EntryThrows(es[i])
    ensures AllReadable(es[..i + 1])
  {
    assert forall j :: 0 <= j < i ==> es[..i + 1][j] == es[..i][j];
  }

  /** The surviving entries, in feed order. */
  function Survivors(es: seq<ManifestEntry>): (r: seq<Version>)
    ensures |r| <= |es|
  {
    if |es| == 0 then []
    else
      var init := es[..|es| - 1];
      match EntryVersion(es[|es| - 1])
      case None => Survivors(init)
      case Some(v) => Survivors(init) + [v]
  }

  /** Ingestion keeps feed order: the survivors of two consecutive slices
      are the survivors of each, one after the other. */
  lemma {:induction false} SurvivorsAppend(a: seq<ManifestEntry>, b: seq<ManifestEntry>)
    ensures Survivors(a + b) == Survivors(a) + Survivors(b)
    decreases |b|
  {
    if |b| > 0 {
      var b' := b[..|b| - 1];
      assert (a + b)[..|a + b| - 1] == a + b';
      SurvivorsAppend(a, b');
    } else {
      assert a + b == a;
    }
  }

  /** One more entry adds its version, if it has one, at the end. */
  lemma SurvivorsStep(es: seq<ManifestEntry>, i: nat)
    requires i < |es|
    ensures Survivors(es[..i + 1]) ==
      Survivors(es[..i]) + (if EntryVersion(es[i]).Some? then [EntryVersion(es[i]).value] else [])
  {
    assert es[..i + 1][..i] == es[..i];
  }

  /** Every entry that produces a version has it among the survivors. */
  lemma {:induction false} SurvivorKept(es: seq<ManifestEntry>, i: nat)
    requires i < |es| && EntryVersion(es[i]).Some?
    ensures EntryVersion(es[i]).value in Survivors(es)
    decreases |es|
  {
    var init := es[..|es| - 1];
    if i < |es| - 1 {
      assert init[i] == es[i];
      SurvivorKept(init, i);
    }
  }

  /** Every survivor comes from an entry: the index of the entry that
      produced survivor `k`. */
  function SurvivorOrigin(es: seq<ManifestEntry>, k: nat): (i: nat)
    requires k < |Survivors(es)|
    ensures i < |es| && EntryVersion(es[i]) == Some(Survivors(es)[k])
    decreases |es|
  {
    var init := es[..|es| - 1];
    if k < |Survivors(init)| then
      var j := SurvivorOrigin(init, k);
      assert init[j] == es[j];
      j
    else |es| - 1
  }

  /** The element loop of the manifest handler: it stops at the first
      element whose reading throws, and otherwise collects the survivors. */
  method ParseEntries(entries: seq<ManifestEntry>) returns (ok: bool, parsed: seq<Version>)
    ensures ok <==> AllReadable(entries)
    ensures ok ==> parsed == Survivors(entries)
  {
    parsed := [];
    var i := 0;
    while i < |entries|
      invariant 0 <= i <= |entries|
      invariant AllReadable(entries[..i])
      invariant parsed == Survivors(entries[..i])
    {
      var e := entries[i];
      if EntryThrows(e) {
        assert !AllReadable(entries);
        return false, parsed;
      }
      SurvivorsStep(entries, i);
      AllReadableStep(entries, i);
      var v := EntryVersion(e);
      if v.Some? {
        parsed := parsed + [v.value];
      }
      i := i + 1;
    }
    assert entries[..i] == entries;
    return true, parsed;
  }

  /** The process-wide catalog state. */
  class VersionCatalog {
    var versions: seq<Version>
    var latestStable: Option<Version>
    var latestSnapshot: Option<Version>

    constructor ()
      ensures versions == [] && latestStable.None? && latestSnapshot.None?
    {
      versions := [];
      latestStable := None;
      latestSnapshot := None;
    }

    /** The manifest handler of `requestMinecraftVersions`. A missing
        `versions` array, or an element that is not an object or holds an
        unreadable member the handler reads, throws before anything
        changes. Otherwise the list is replaced wholesale by the survivors;
        a missing `latest` object or reference then throws before the
        references are touched; else each reference becomes the first entry
        with the named identifier, or null. */
    method Ingest(manifest: Manifest) returns (completed: bool)
      modifies this
      ensures manifest.versions.None? || !AllReadable(manifest.versions.value) ==>
        !completed && versions == old(versions)
      ensures manifest.versions.Some? && AllReadable(manifest.versions.value) ==>
        versions == Survivors(manifest.versions.value)
      ensures completed <==> (manifest.versions.Some? && AllReadable(manifest.versions.value) &&
        manifest.latest.Some? && manifest.latest.value.release.Some? && manifest.latest.value.snapshot.Some?)
      ensures completed ==> latestStable == FromId(versions, manifest.latest.value.release.value)
      ensures completed ==> latestSnapshot == FromId(versions, manifest.latest.value.snapshot.value)
      ensures !completed ==> latestStable == old(latestStable) && latestSnapshot == old(latestSnapshot)
    {
      if manifest.versions.None? {
        return false;
      }
      var ok, parsed := ParseEntries(manifest.versions.value);
      if !ok {
        return false;
      }
      versions := parsed;
      if manifest.latest.None? || manifest.latest.value.release.None? || manifest.latest.value.snapshot.None? {
        return false;
      }
      latestStable := FromId(versions, manifest.latest.value.release.value);
      latestSnapshot := FromId(versions, manifest.latest.value.snapshot.value);
      return true;
    }

    /** `getLatestVersion(type)`: the stored reference for releases and
        snapshots; for the two legacy types, a scan from the last index down. */
    method LatestVersionOfType(t: VersionType) returns (r: Option<Version>)
      ensures t == Release ==> r == latestStable
      ensures t == Snapshot ==> r == latestSnapshot
      ensures t == OldBeta || t == OldAlpha ==> r == LastOfType(versions, t)
      ensures t == OldBeta || t == OldAlpha ==> r.Some? ==>
        exists i :: 0 <= i < |versions| && versions[i] == r.value && forall j :: i < j < |versions| ==> versions[j].vtype != t
    {
      if t == Release {
        return latestStable;
      } else if t == Snapshot {
        return latestSnapshot;
      }
      var i := |versions| - 1;
      while i >= 0
        invariant -1 <= i < |versions|
        invariant forall j :: i < j < |versions| ==> versions[j].vtype != t
      {
        if versions[i].vtype == t {
          return Some(versions[i]);
        }
        i := i - 1;
      }
      return None;
    }

    /** `findClosestRelease`: its downward loop, then its upward loop. */
    method FindClosestRelease(v: Version) returns (r: Option<Version>)
      ensures r == ClosestRelease(versions, v)
    {
      if v.IsRelease() {
        return Some(v);
      }
      var index := Streams.IndexOf(versions, v);
      if index == -1 {
        return None;
      }
      var below := ReleaseBelow(index);
      if below != -1 {
        ClosestReleaseSteps(versions, v, index, below, FirstIndexOfType(versions, Release, index + 1));
        return Some(versions[below]);
      }
      var above := ReleaseFrom(index + 1);
      ClosestReleaseSteps(versions, v, index, below, above);
      if above != -1 {
        return Some(versions[above]);
      }
      return None;
    }

    /** The downward loop of `findClosestRelease`: the nearest release
        below index `k`, or -1. */
    method ReleaseBelow(k: nat) returns (i: int)
      requires k <= |versions|
      ensures i == LastIndexOfType(versions, Release, k)
    {
      i := k - 1;
      while i >= 0
        invariant -1 <= i < k
        invariant forall j :: i < j < k ==> !versions[j].IsRelease()
      {
        if versions[i].IsRelease() {
          LastIndexOfTypeAt(versions, Release, k, i);
          return;
        }
        i := i - 1;
      }
    }

    /** The upward loop of `findClosestRelease`: the nearest release from
        index `k` on, or -1. */
    method ReleaseFrom(k: nat) returns (i: int)
      ensures i == FirstIndexOfType(versions, Release, k)
    {
      i := k;
      while i < |versions|
        invariant k <= i
        invariant forall j :: k <= j < i && j < |versions| ==> !versions[j].IsRelease()
      {
        if versions[i].IsRelease() {
          FirstIndexOfTypeAt(versions, Release, k, i);
          return;
        }
        i := i + 1;
      }
      i := -1;
    }
  }
}
