/** `ForgeVersionService`: Forge versions are texts such as `1.21.8-58.0.10`,
    a base-version identifier, a `-`, and a dotted build. They are ordered by
    a three-stage comparator, listed from the Maven metadata, and matched
    against the promotions map for "recommended" builds. The catalog lookup
    that resolves the base version is the list `vs` of the catalog. */
module Forge {
  import opened Wrappers
  import JavaString
  import Catalog
  import Streams
  import TtlCache
  import Upstream

  /** `toMinecraftVersion`: the catalog entry named by the text before the
      first `-`; none when there is no `-` or it is the first character. */
  function BaseVersion(vs: seq<Catalog.Version>, s: string): (r: Option<Catalog.Version>)
    ensures Streams.IndexOf(s, '-') <= 0 ==> r.None?
    ensures r.Some? ==> r.value in vs && r.value.id == s[..Streams.IndexOf(s, '-')]
    ensures Streams.IndexOf(s, '-') > 0 ==> var base := s[..Streams.IndexOf(s, '-')];
      (r.None? <==> forall j :: 0 <= j < |vs| ==> vs[j].id != base) &&
      (r.Some? ==> exists i :: 0 <= i < |vs| && vs[i] == r.value && forall j :: 0 <= j < i ==> vs[j].id != base)
  {
    var dash := Streams.IndexOf(s, '-');
    if dash <= 0 then None else Catalog.FromId(vs, s[..dash])
  }

  /** The build: the text after the first `-`, or the whole text. */
  function Build(s: string): (r: string)
    ensures '-' !in s ==> r == s
    ensures '-' in s ==> s == s[..Streams.IndexOf(s, '-')] + "-" + r
  {
    s[Streams.IndexOf(s, '-') + 1..]
  }

  /** `s.split("-", 2)`: the text before the first `-` and everything after
      it (with a limit, a trailing empty piece is kept). */
  function SplitOnce(s: string): (r: seq<string>)
    ensures '-' !in s ==> r == [s]
    ensures '-' in s ==> |r| == 2 && s == r[0] + "-" + r[1] && '-' !in r[0]
  {
    var i := Streams.IndexOf(s, '-');
    if i == -1 then [s] else [s[..i], s[i + 1..]]
  }

  /** The string fallback for one pair of build elements: a bare `-` comes
      first; two elements that both hold a `-` compare their heads, then their
      tails; anything else compares as plain strings. */
  function FallbackVerdict(a: string, b: string): (r: int)
    ensures r == 0 <==> a == b
    ensures a == "-" && b != "-" ==> r < 0
    ensures a != "-" && b == "-" ==> r > 0
    ensures a != "-" && b != "-" && ('-' !in a || '-' !in b) ==> r == JavaString.CompareTo(a, b)
  {
    if a == "-" && b != "-" then -1
    else if a != "-" && b == "-" then 1
    else if '-' in a && '-' in b then
      var sub1 := SplitOnce(a);
      var sub2 := SplitOnce(b);
      if sub1[0] != sub2[0] then JavaString.CompareTo(sub1[0], sub2[0])
      else if |sub1| > 1 && |sub2| > 1 then JavaString.CompareTo(sub1[1], sub2[1])
      else if |sub1| > 1 then 1
      else if |sub2| > 1 then -1
      else 0
    else JavaString.CompareTo(a, b)
  }

  /** The three branches after the head comparison that do not compare tails
      are never taken: a text holding `-` always splits into two pieces. */
  lemma FallbackComparesTails(a: string, b: string)
    requires a != "-" || b == "-"
    requires a == "-" || b != "-"
    requires '-' in a && '-' in b && SplitOnce(a)[0] == SplitOnce(b)[0]
    ensures FallbackVerdict(a, b) == JavaString.CompareTo(SplitOnce(a)[1], SplitOnce(b)[1])
  {
  }

  /** Element `i` of a split build, the empty string past its end. */
  function Element(p: seq<string>, i: nat): string {
    if i < |p| then p[i] else ""
  }

  /** Element `i` read as an `int`, 0 past the end, `None` when it does not
      parse. */
  function Part(p: seq<string>, i: nat): Option<int> {
    if i < |p| then JavaString.ParseInt(p[i]) else Some(0)
  }

  /** The verdict of the element pair at `i`; `None` when both read as the
      same integer and the comparison moves on to the next pair. */
  function StepVerdict(p1: seq<string>, p2: seq<string>, i: nat): (r: Option<int>)
    ensures Part(p1, i).Some? && Part(p2, i).Some? ==>
      (r.None? <==> Part(p1, i) == Part(p2, i)) &&
      (r.Some? ==> (r.value < 0 <==> Part(p1, i).value < Part(p2, i).value))
    ensures Part(p1, i).None? || Part(p2, i).None? ==> r == Some(FallbackVerdict(Element(p1, i), Element(p2, i)))
  {
    var n1 := Part(p1, i);
    var n2 := Part(p2, i);
    if n1.Some? && n2.Some? then
      if n1.value != n2.value then Some(if n1.value < n2.value then -1 else 1) else None
    else Some(FallbackVerdict(Element(p1, i), Element(p2, i)))
  }

  function Max(a: nat, b: nat): nat {
    if a < b then b else a
  }

  /** The build comparison from element `i` on: the first pair with a
      verdict decides, and a build whose every element matches is equal. */
  function CompareBuildsFrom(p1: seq<string>, p2: seq<string>, i: nat): (r: int)
    ensures i >= Max(|p1|, |p2|) ==> r == 0
    decreases Max(|p1|, |p2|) - i
  {
    if i >= Max(|p1|, |p2|) then 0
    else
      match StepVerdict(p1, p2, i)
      case Some(v) => v
      case None => CompareBuildsFrom(p1, p2, i + 1)
  }

  /** The dotted elements of a version's build. */
  function BuildElements(s: string): seq<string> {
    JavaString.Split(Build(s), '.')
  }

  /** `compareForgeVersions`: when both base versions resolve and were
      released at different instants, the earlier one comes first; otherwise
      the builds decide. */
  function Compare(vs: seq<Catalog.Version>, v1: string, v2: string): (r: int)
    ensures BaseVersion(vs, v1).Some? && BaseVersion(vs, v2).Some? &&
            BaseVersion(vs, v1).value.releaseTime != BaseVersion(vs, v2).value.releaseTime ==>
      (r < 0 <==> BaseVersion(vs, v1).value.releaseTime < BaseVersion(vs, v2).value.releaseTime) && r != 0
    ensures BaseVersion(vs, v1).None? || BaseVersion(vs, v2).None? ||
            BaseVersion(vs, v1).value.releaseTime == BaseVersion(vs, v2).value.releaseTime ==>
      r == CompareBuildsFrom(BuildElements(v1), BuildElements(v2), 0)
  {
    var mc1 := BaseVersion(vs, v1);
    var mc2 := BaseVersion(vs, v2);
    if mc1.Some? && mc2.Some? && Catalog.CompareTo(mc1.value, mc2.value) != 0 then
      Catalog.CompareTo(mc1.value, mc2.value)
    else
      CompareBuildsFrom(BuildElements(v1), BuildElements(v2), 0)
  }

  /** The comparator loop itself, with its early returns. */
  method CompareForgeVersions(vs: seq<Catalog.Version>, v1: string, v2: string) returns (r: int)
    ensures r == Compare(vs, v1, v2)
  {
    var mc1 := BaseVersion(vs, v1);
    var mc2 := BaseVersion(vs, v2);
    if mc1.Some? && mc2.Some? {
      var compared := Catalog.CompareTo(mc1.value, mc2.value);
      if compared != 0 {
        return compared;
      }
    }
    var split1 := BuildElements(v1);
    var split2 := BuildElements(v2);
    var n := Max(|split1|, |split2|);
    assert CompareBuildsFrom(split1, split2, 0) == Compare(vs, v1, v2);
    var i := 0;
    while i < n
      invariant 0 <= i <= n
      invariant CompareBuildsFrom(split1, split2, i) == Compare(vs, v1, v2)
    {
      var part1 := if i < |split1| then JavaString.ParseInt(split1[i]) else Some(0);
      var part2 := if i < |split2| then JavaString.ParseInt(split2[i]) else Some(0);
      assert part1 == Part(split1, i) && part2 == Part(split2, i);
      assert CompareBuildsFrom(split1, split2, i) ==
        match StepVerdict(split1, split2, i)
        case Some(v) => v
        case None => CompareBuildsFrom(split1, split2, i + 1);
      if part1.Some? && part2.Some? {
        if part1.value != part2.value {
          return if part1.value < part2.value then -1 else 1;
        }
      } else {
        var str1 := if i < |split1| then split1[i] else "";
        var str2 := if i < |split2| then split2[i] else "";
        return FallbackVerdict(str1, str2);
      }
      i := i + 1;
    }
    return 0;
  }

  lemma {:induction false} CompareBuildsFromReflexive(p: seq<string>, i: nat)
    ensures CompareBuildsFrom(p, p, i) == 0
    decreases |p| - i
  {
    if i < |p| {
      CompareBuildsFromReflexive(p, i + 1);
    }
  }

  /** Every version is equal to itself. */
  lemma CompareReflexive(vs: seq<Catalog.Version>, a: string)
    ensures Compare(vs, a, a) == 0
  {
    CompareBuildsFromReflexive(BuildElements(a), 0);
  }

  lemma FallbackAntisymmetric(a: string, b: string)
    ensures FallbackVerdict(a, b) == -FallbackVerdict(b, a)
  {
    if '-' in a && '-' in b {
      JavaString.CompareToAntisymmetric(SplitOnce(a)[0], SplitOnce(b)[0]);
      JavaString.CompareToAntisymmetric(SplitOnce(a)[1], SplitOnce(b)[1]);
    } else {
      JavaString.CompareToAntisymmetric(a, b);
    }
  }

  lemma {:induction false} CompareBuildsFromAntisymmetric(p1: seq<string>, p2: seq<string>, i: nat)
    ensures CompareBuildsFrom(p1, p2, i) == -CompareBuildsFrom(p2, p1, i)
    decreases Max(|p1|, |p2|) - i
  {
    if i < Max(|p1|, |p2|) {
      FallbackAntisymmetric(Element(p1, i), Element(p2, i));
      CompareBuildsFromAntisymmetric(p1, p2, i + 1);
    }
  }

  /** Swapping the arguments negates the answer exactly. */
  lemma CompareAntisymmetric(vs: seq<Catalog.Version>, a: string, b: string)
    ensures Compare(vs, a, b) == -Compare(vs, b, a)
  {
    CompareBuildsFromAntisymmetric(BuildElements(a), BuildElements(b), 0);
  }

  /** The comparator as the sorting step receives it. */
  function Comparator(vs: seq<Catalog.Version>): (string, string) -> int {
    (a: string, b: string) => Compare(vs, a, b)
  }

  /** Two versions over the same base identifier are ordered by their builds. */
  lemma SameBaseVersion(vs: seq<Catalog.Version>, base: string, x: string, y: string)
    requires '-' !in base
    ensures Compare(vs, base + ['-'] + x, base + ['-'] + y) == CompareBuildsFrom(BuildElements(base + ['-'] + x), BuildElements(base + ['-'] + y), 0)
  {
    var a, b := base + ['-'] + x, base + ['-'] + y;
    JavaString.IndexOfAfterPrefix(base, '-', x);
    JavaString.IndexOfAfterPrefix(base, '-', y);
    assert a[..|base|] == base == b[..|base|];
  }

  lemma BuildElementsThree(vs: seq<Catalog.Version>, base: string, x: string, y: string, z: string)
    requires '-' !in base && '.' !in x && '.' !in y && '.' !in z && z != ""
    ensures BuildElements(base + ['-'] + (x + ['.'] + (y + ['.'] + z))) == [x, y, z]
  {
    var build := x + ['.'] + (y + ['.'] + z);
    var s := base + ['-'] + build;
    JavaString.IndexOfAfterPrefix(base, '-', build);
    assert s[|base| + 1..] == build;
    JavaString.SplitThree(x, y, z, '.');
  }

  /** Numeric elements compare as numbers: over any base version, build
      58.0.9 comes before 58.0.10 (`1.21.8-58.0.9` before `1.21.8-58.0.10`). */
  lemma NumericBuildOrder(vs: seq<Catalog.Version>, base: string)
    requires '-' !in base
    ensures Compare(vs, base + "-58.0.9", base + "-58.0.10") < 0
  {
    var x, y := "58.0.9", "58.0.10";
    assert x == "58" + ['.'] + ("0" + ['.'] + "9");
    assert y == "58" + ['.'] + ("0" + ['.'] + "10");
    assert base + "-58.0.9" == base + ['-'] + x;
    assert base + "-58.0.10" == base + ['-'] + y;
    SameBaseVersion(vs, base, x, y);
    BuildElementsThree(vs, base, "58", "0", "9");
    BuildElementsThree(vs, base, "58", "0", "10");
    NumericElementsOrder();
  }

  lemma NumericElementsOrder()
    ensures CompareBuildsFrom(["58", "0", "9"], ["58", "0", "10"], 0) < 0
  {
    var p1: seq<string>, p2: seq<string> := ["58", "0", "9"], ["58", "0", "10"];
    JavaString.ParseTwoDigits("58");
    JavaString.ParseOneDigit("0");
    JavaString.ParseOneDigit("9");
    JavaString.ParseTwoDigits("10");
    assert StepVerdict(p1, p2, 0).None? && StepVerdict(p1, p2, 1).None?;
    assert StepVerdict(p1, p2, 2) == Some(-1);
  }

  lemma BuildElementsOne(base: string, x: string)
    requires '-' !in base && '.' !in x
    ensures BuildElements(base + ['-'] + x) == [x]
  {
    JavaString.IndexOfAfterPrefix(base, '-', x);
    assert (base + ['-'] + x)[|base| + 1..] == x;
  }

  lemma BuildElementsTwo(base: string, x: string, y: string)
    requires '-' !in base && '.' !in x && '.' !in y && y != ""
    ensures BuildElements(base + ['-'] + (x + ['.'] + y)) == [x, y]
  {
    var build := x + ['.'] + y;
    JavaString.IndexOfAfterPrefix(base, '-', build);
    assert (base + ['-'] + build)[|base| + 1..] == build;
    JavaString.SplitTwo(x, y, '.');
  }

  lemma SuffixedElementsOrder()
    ensures CompareBuildsFrom(["58"], ["58-rc1"], 0) < 0
  {
    var x, y := "58", "58-rc1";
    JavaString.ParseIntNonDigit(y, 2);
    assert FallbackVerdict(x, y) == -4;
    assert StepVerdict([x], [y], 0) == Some(-4);
  }

  /** A build element with a suffix is not a number, and the plain string
      order puts `58` before `58-rc1`. */
  lemma SuffixedBuildOrder(vs: seq<Catalog.Version>, base: string)
    requires '-' !in base
    ensures Compare(vs, base + "-58", base + "-58-rc1") < 0
  {
    assert base + "-58" == base + ['-'] + "58";
    assert base + "-58-rc1" == base + ['-'] + "58-rc1";
    SameBaseOne(vs, base, "58", "58-rc1");
    SuffixedElementsOrder();
  }

  /** Over one base version, builds without a dot compare as one element each. */
  lemma SameBaseOne(vs: seq<Catalog.Version>, base: string, x: string, y: string)
    requires '-' !in base && '.' !in x && '.' !in y
    ensures Compare(vs, base + ['-'] + x, base + ['-'] + y) == CompareBuildsFrom([x], [y], 0)
  {
    SameBaseVersion(vs, base, x, y);
    BuildElementsOne(base, x);
    BuildElementsOne(base, y);
  }

  lemma FinalElementsVerdict()
    ensures CompareBuildsFrom(["a", "1"], ["a", "2"], 0) == 0
  {
    JavaString.ParseIntNonDigit("a", 0);
    assert StepVerdict(["a", "1"], ["a", "2"], 0) == Some(0);
  }

  /** The first pair that is not a pair of integers decides, even when its
      verdict is "equal": later elements are never looked at, so `a.1` and
      `a.2` compare equal. */
  lemma FallbackVerdictIsFinal(vs: seq<Catalog.Version>, base: string)
    requires '-' !in base
    ensures Compare(vs, base + "-a.1", base + "-a.2") == 0
  {
    var x, y := "a.1", "a.2";
    assert x == "a" + ['.'] + "1" && y == "a" + ['.'] + "2";
    assert base + "-a.1" == base + ['-'] + x;
    assert base + "-a.2" == base + ['-'] + y;
    SameBaseVersion(vs, base, x, y);
    BuildElementsTwo(base, "a", "1");
    BuildElementsTwo(base, "a", "2");
    FinalElementsVerdict();
  }

  lemma SingleElementsOrder(x: string, y: string, m: int, n: int)
    requires 0 < |x| && (forall i :: 0 <= i < |x| ==> JavaString.IsDigit(x[i])) && JavaString.DigitsValue(x) == m <= JavaString.IntMax
    requires 0 < |y| && (forall i :: 0 <= i < |y| ==> JavaString.IsDigit(y[i])) && JavaString.DigitsValue(y) == n <= JavaString.IntMax
    requires m < n
    ensures CompareBuildsFrom([x], [y], 0) < 0
  {
    assert StepVerdict([x], [y], 0) == Some(-1);
  }

  /** A version written as a catalog identifier, `-` and a build resolves to
      that catalog entry. */
  lemma BaseOfJoin(vs: seq<Catalog.Version>, mc: Catalog.Version, x: string)
    requires |mc.id| > 0 && '-' !in mc.id
    requires Catalog.FromId(vs, mc.id) == Some(mc)
    ensures BaseVersion(vs, mc.id + ['-'] + x) == Some(mc)
  {
    var s := mc.id + ['-'] + x;
    JavaString.IndexOfAfterPrefix(mc.id, '-', x);
    assert s[..|mc.id|] == mc.id;
  }

  lemma BareBuildElements(vs: seq<Catalog.Version>)
    ensures BaseVersion(vs, "5").None?
    ensures BuildElements("5") == ["5"]
  {
    assert Streams.IndexOf("5", '-') == -1;
    assert Build("5") == "5";
  }

  lemma OneBeforeFive()
    ensures CompareBuildsFrom(["1"], ["5"], 0) < 0
  {
    SingleElementsOrder("1", "5", 1, 5);
  }

  lemma FiveBeforeNine()
    ensures CompareBuildsFrom(["5"], ["9"], 0) < 0
  {
    SingleElementsOrder("5", "9", 5, 9);
  }

  /** A version that names no base version is ordered by its build alone. */
  lemma UnresolvedByBuild(vs: seq<Catalog.Version>, a: string, b: string)
    requires BaseVersion(vs, a).None? || BaseVersion(vs, b).None?
    ensures Compare(vs, a, b) == CompareBuildsFrom(BuildElements(a), BuildElements(b), 0)
  {
  }

  /** A version over a newer base against the bare build `5`: no release time
      is compared, and build 1 comes before build 5. */
  lemma NewerBeforeBare(vs: seq<Catalog.Version>, newer: Catalog.Version)
    requires '-' !in newer.id
    ensures Compare(vs, newer.id + "-1", "5") < 0
  {
    var a := newer.id + "-1";
    assert a == newer.id + ['-'] + "1";
    BuildElementsOne(newer.id, "1");
    BareBuildElements(vs);
    UnresolvedByBuild(vs, a, "5");
    OneBeforeFive();
  }

  /** The bare build `5` against a version over an older base: build 5 comes
      before build 9. */
  lemma BareBeforeOlder(vs: seq<Catalog.Version>, older: Catalog.Version)
    requires '-' !in older.id
    ensures Compare(vs, "5", older.id + "-9") < 0
  {
    var b := older.id + "-9";
    assert b == older.id + ['-'] + "9";
    BuildElementsOne(older.id, "9");
    BareBuildElements(vs);
    UnresolvedByBuild(vs, "5", b);
    FiveBeforeNine();
  }

  /** The comparator is not transitive: for any two catalog versions `older`
      and `newer` released at different instants (say 1.20 and 1.21),
      `older-9` comes before `newer-1` by release time, `newer-1` before `5`
      and `5` before `older-9` by build, since `5` names no base version. */
  lemma CompareNotTransitive(vs: seq<Catalog.Version>, older: Catalog.Version, newer: Catalog.Version)
    requires |older.id| > 0 && '-' !in older.id && Catalog.FromId(vs, older.id) == Some(older)
    requires |newer.id| > 0 && '-' !in newer.id && Catalog.FromId(vs, newer.id) == Some(newer)
    requires older.releaseTime < newer.releaseTime
    ensures Compare(vs, older.id + "-9", newer.id + "-1") < 0
    ensures Compare(vs, newer.id + "-1", "5") < 0
    ensures Compare(vs, "5", older.id + "-9") < 0
  {
    assert older.id + "-9" == older.id + ['-'] + "9";
    assert newer.id + "-1" == newer.id + ['-'] + "1";
    BaseOfJoin(vs, older, "9");
    BaseOfJoin(vs, newer, "1");
    NewerBeforeBare(vs, newer);
    BareBeforeOlder(vs, older);
  }

  /** In the order the comparator is given to the sort, "after" implies
      "before the other way round". */
  lemma ComparatorSignAntisymmetric(vs: seq<Catalog.Version>)
    ensures Streams.SignAntisymmetric(Comparator(vs))
  {
    forall a: string, b: string | Comparator(vs)(a, b) > 0
      ensures Comparator(vs)(b, a) < 0
    {
      CompareAntisymmetric(vs, a, b);
    }
  }

  /** Reversing an ascending sequence gives one in which every version is
      at least as new as the next. */
  lemma ReverseIsDescending(vs: seq<Catalog.Version>, s: seq<string>)
    requires Streams.AdjacentSorted(s, Comparator(vs))
    ensures forall i :: 0 <= i < |s| - 1 ==> Compare(vs, Streams.Reverse(s)[i], Streams.Reverse(s)[i + 1]) >= 0
  {
    var r := Streams.Reverse(s);
    Streams.ReverseAdjacentSorted(s, Comparator(vs));
    forall i | 0 <= i < |s| - 1
      ensures Compare(vs, r[i], r[i + 1]) >= 0
    {
      assert Comparator(vs)(r[i + 1], r[i]) <= 0;
      CompareAntisymmetric(vs, r[i], r[i + 1]);
    }
  }

  /** `listAllVersions`: the feed sorted ascending by the comparator, then
      reversed. The result holds the same versions, and every version is at
      least as new as the one after it. */
  function SortedListing(vs: seq<Catalog.Version>, feed: seq<string>): (r: seq<string>)
    ensures multiset(r) == multiset(feed)
    ensures forall i :: 0 <= i < |r| - 1 ==> Compare(vs, r[i], r[i + 1]) >= 0
  {
    var ascending := Streams.InsertionSort(feed, Comparator(vs));
    ComparatorSignAntisymmetric(vs);
    Streams.InsertionSortAdjacentSorted(feed, Comparator(vs));
    ReverseIsDescending(vs, ascending);
    Streams.Reverse(ascending)
  }

  /** The filter of `listVersionsFor(mc)`: the version names base version `mc`. */
  function OverBase(vs: seq<Catalog.Version>, mc: Catalog.Version): string -> bool {
    (x: string) => BaseVersion(vs, x) == Some(mc)
  }

  /** `listVersionsFor`: the versions over base version `mc`, in feed order. */
  function VersionsFor(vs: seq<Catalog.Version>, feed: seq<string>, mc: Catalog.Version): (r: seq<string>)
    ensures |r| <= |feed|
    ensures forall i :: 0 <= i < |r| ==> r[i] in feed && BaseVersion(vs, r[i]) == Some(mc)
    ensures forall i :: 0 <= i < |feed| && BaseVersion(vs, feed[i]) == Some(mc) ==> feed[i] in r
  {
    Streams.Filter(feed, OverBase(vs, mc))
  }

  /** `latestFor`: the last version of the filtered listing. */
  function LatestFor(vs: seq<Catalog.Version>, feed: seq<string>, mc: Catalog.Version): (r: Option<string>)
    ensures r.Some? ==> r.value in feed && BaseVersion(vs, r.value) == Some(mc)
  {
    LastOf(VersionsFor(vs, feed, mc))
  }

  /** The last entry of a list, if any. */
  function LastOf(list: seq<string>): (r: Option<string>)
    ensures r.None? <==> |list| == 0
    ensures r.Some? ==> r.value == list[|list| - 1]
  {
    if |list| == 0 then None else Some(list[|list| - 1])
  }

  /** The latest version over `mc` is the entry at the largest index that
      names `mc`, and there is none exactly when no entry does. */
  lemma LatestForIsLastMatch(vs: seq<Catalog.Version>, feed: seq<string>, mc: Catalog.Version)
    ensures var k := Streams.LastWhere(feed, OverBase(vs, mc));
      LatestFor(vs, feed, mc) == if k == -1 then None else Some(feed[k])
  {
    Streams.LastOfFilter(feed, OverBase(vs, mc));
  }

  /** The promotions key of the recommended build for a base version. */
  function RecommendedKey(mc: Catalog.Version): string {
    mc.id + "-recommended"
  }

  /** `recommendedFor`: the base identifier, `-`, and the promoted build;
      none when there are no promotions or the entry is missing or blank. */
  function RecommendedFor(promos: Option<map<string, string>>, mc: Catalog.Version): (r: Option<string>)
    ensures r.Some? <==> promos.Some? && RecommendedKey(mc) in promos.value && !JavaString.IsBlank(promos.value[RecommendedKey(mc)])
    ensures r.Some? ==> r.value == mc.id + "-" + promos.value[RecommendedKey(mc)]
  {
    if promos.None? || RecommendedKey(mc) !in promos.value then None
    else
      var build := promos.value[RecommendedKey(mc)];
      if JavaString.IsBlank(build) then None else Some(mc.id + "-" + build)
  }

  /** `isRecommended`: the version resolves to a base version whose
      recommended coordinate it is. */
  function IsRecommended(vs: seq<Catalog.Version>, promos: Option<map<string, string>>, s: string): (r: bool)
    ensures r <==> BaseVersion(vs, s).Some? && RecommendedFor(promos, BaseVersion(vs, s).value) == Some(s)
  {
    var mc := BaseVersion(vs, s);
    if mc.None? || promos.None? then false
    else
      var key := mc.value.id + "-recommended";
      if key !in promos.value || JavaString.IsBlank(promos.value[key]) then false
      else s == mc.value.id + "-" + promos.value[key]
  }

  /** The recommended coordinate of a base version is recognised as
      recommended, when the identifier holds no `-` and the catalog resolves it
      to that same base version. */
  lemma RecommendedIsRecommended(vs: seq<Catalog.Version>, promos: Option<map<string, string>>, mc: Catalog.Version)
    requires |mc.id| > 0 && '-' !in mc.id
    requires Catalog.FromId(vs, mc.id) == Some(mc)
    requires RecommendedFor(promos, mc).Some?
    ensures IsRecommended(vs, promos, RecommendedFor(promos, mc).value)
  {
    var s := RecommendedFor(promos, mc).value;
    var build := promos.value[RecommendedKey(mc)];
    assert s == mc.id + ['-'] + build;
    JavaString.IndexOfAfterPrefix(mc.id, '-', build);
    assert s[..|mc.id|] == mc.id;
  }

  /** The service state: the version cache of the (not shown) base class,
      holding the Maven listing under `"all"`, and the promotions entry. */
  class ForgeService {
    const store: Upstream.ServiceCache<seq<string>>
    var promotionsCache: Option<TtlCache.Entry<Option<map<string, string>>>>

    constructor (ttlMillis: int)
      ensures fresh(store) && store.entries == map[] && store.ttl == ttlMillis
      ensures promotionsCache.None?
    {
      store := new Upstream.ServiceCache(ttlMillis);
      promotionsCache := None;
    }

    /** The promotions of an active entry. */
    function ActivePromotions(now: int): (r: Option<Option<map<string, string>>>)
      reads this
      ensures r.Some? <==> promotionsCache.Some? && now < promotionsCache.value.expiresAt
      ensures r.Some? ==> r.value == promotionsCache.value.value
    {
      if promotionsCache.Some? && promotionsCache.value.IsActive(now) then Some(promotionsCache.value.value) else None
    }

    /** `promotions()`: an active entry is reused; otherwise the promotions
      are requested and whatever arrives (`None` for a null map) is stored;
      a failed request propagates and changes nothing. */
    method Promotions(now: int, fetched: Upstream.Fetch<Option<map<string, string>>>)
      returns (r: Result<Option<map<string, string>>>)
      modifies this
      ensures old(ActivePromotions(now)).Some? ==>
        r == Ok(old(ActivePromotions(now)).value) && promotionsCache == old(promotionsCache)
      ensures old(ActivePromotions(now)).None? && fetched.Fetched? ==>
        r == Ok(fetched.value) && promotionsCache == Some(TtlCache.Entry(fetched.value, now + store.ttl))
      ensures old(ActivePromotions(now)).None? && fetched.FetchFailed? ==>
        r == Err && promotionsCache == old(promotionsCache)
    {
      var cached := ActivePromotions(now);
      if cached.Some? {
        return Ok(cached.value);
      }
      if fetched.FetchFailed? {
        return Err;
      }
      promotionsCache := Some(TtlCache.Entry(fetched.value, now + store.ttl));
      return Ok(fetched.value);
    }

    /** `listAllVersions` over the cached or freshly requested feed. */
    method ListAllVersions(vs: seq<Catalog.Version>, now: int, maven: Upstream.Fetch<seq<string>>)
      returns (r: Result<seq<string>>)
      modifies store
      ensures var served := Upstream.ServedVersions(old(store.Active("all", now)), maven);
        r == if served.Ok? then Ok(SortedListing(vs, served.value)) else Err
      ensures old(store.Active("all", now)).Some? || maven.FetchFailed? ==> store.entries == old(store.entries)
      ensures old(store.Active("all", now)).None? && maven.Fetched? ==>
        store.entries == old(store.entries)["all" := TtlCache.Entry(Upstream.VersionTexts(maven.value), now + old(store.ttl))]
      ensures store.ttl == old(store.ttl)
    {
      var feed := Upstream.CachedMavenVersions(store, now, maven);
      if feed.Err? {
        return Err;
      }
      return Ok(SortedListing(vs, feed.value));
    }

    /** `listVersionsFor(mc)` over the cached or freshly requested feed. */
    method ListVersionsFor(vs: seq<Catalog.Version>, mc: Catalog.Version, now: int, maven: Upstream.Fetch<seq<string>>)
      returns (r: Result<seq<string>>)
      modifies store
      ensures var served := Upstream.ServedVersions(old(store.Active("all", now)), maven);
        r == if served.Ok? then Ok(VersionsFor(vs, served.value, mc)) else Err
      ensures old(store.Active("all", now)).Some? || maven.FetchFailed? ==> store.entries == old(store.entries)
      ensures old(store.Active("all", now)).None? && maven.Fetched? ==>
        store.entries == old(store.entries)["all" := TtlCache.Entry(Upstream.VersionTexts(maven.value), now + old(store.ttl))]
      ensures store.ttl == old(store.ttl)
    {
      var feed := Upstream.CachedMavenVersions(store, now, maven);
      if feed.Err? {
        return Err;
      }
      return Ok(VersionsFor(vs, feed.value, mc));
    }

    /** `latestFor(mc)` (with or without pre-releases): the last entry of
      `listVersionsFor(mc)`. */
    method LatestVersionFor(vs: seq<Catalog.Version>, mc: Catalog.Version, now: int, maven: Upstream.Fetch<seq<string>>)
      returns (r: Result<Option<string>>)
      modifies store
      ensures var served := Upstream.ServedVersions(old(store.Active("all", now)), maven);
        r == if served.Ok? then Ok(LatestFor(vs, served.value, mc)) else Err
      ensures old(store.Active("all", now)).Some? || maven.FetchFailed? ==> store.entries == old(store.entries)
      ensures old(store.Active("all", now)).None? && maven.Fetched? ==>
        store.entries == old(store.entries)["all" := TtlCache.Entry(Upstream.VersionTexts(maven.value), now + old(store.ttl))]
      ensures store.ttl == old(store.ttl)
    {
      ghost var served := Upstream.ServedVersions(store.Active("all", now), maven);
      var list := ListVersionsFor(vs, mc, now, maven);
      if list.Err? {
        return Err;
      }
      assert list.value == VersionsFor(vs, served.value, mc);
      return Ok(LastOf(list.value));
    }

    /** `recommendedFor(mc)` over the cached or freshly requested promotions. */
    method RecommendedVersionFor(mc: Catalog.Version, now: int, fetched: Upstream.Fetch<Option<map<string, string>>>)
      returns (r: Result<Option<string>>)
      modifies this
      ensures var served := if old(ActivePromotions(now)).Some? then Ok(old(ActivePromotions(now)).value)
                            else if fetched.Fetched? then Ok(fetched.value) else Err;
        r == if served.Ok? then Ok(RecommendedFor(served.value, mc)) else Err
      ensures old(ActivePromotions(now)).None? && fetched.Fetched? ==>
        promotionsCache == Some(TtlCache.Entry(fetched.value, now + store.ttl))
      ensures old(ActivePromotions(now)).Some? || fetched.FetchFailed? ==> promotionsCache == old(promotionsCache)
    {
      var promos := Promotions(now, fetched);
      if promos.Err? {
        return Err;
      }
      return Ok(RecommendedFor(promos.value, mc));
    }

    /** `isRecommended(s)`: a version that names no base version is not
      recommended, and the promotions are then not consulted at all. */
    method CheckRecommended(vs: seq<Catalog.Version>, s: string, now: int, fetched: Upstream.Fetch<Option<map<string, string>>>)
      returns (r: Result<bool>)
      modifies this
      ensures BaseVersion(vs, s).None? ==> r == Ok(false) && promotionsCache == old(promotionsCache)
      ensures BaseVersion(vs, s).Some? ==>
        var served := if old(ActivePromotions(now)).Some? then Ok(old(ActivePromotions(now)).value)
                      else if fetched.Fetched? then Ok(fetched.value) else Err;
        r == if served.Ok? then Ok(IsRecommended(vs, served.value, s)) else Err
      ensures BaseVersion(vs, s).Some? && old(ActivePromotions(now)).None? && fetched.Fetched? ==>
        promotionsCache == Some(TtlCache.Entry(fetched.value, now + store.ttl))
      ensures BaseVersion(vs, s).Some? && (old(ActivePromotions(now)).Some? || fetched.FetchFailed?) ==>
        promotionsCache == old(promotionsCache)
    {
      if BaseVersion(vs, s).None? {
        return Ok(false);
      }
      var promos := Promotions(now, fetched);
      if promos.Err? {
        return Err;
      }
      return Ok(IsRecommended(vs, promos.value, s));
    }

    /** `forceRefresh`: the listing is requested and replaces `"all"`, then the
      promotions are requested and replace their entry; a failure is logged
      and stops the refresh where it happened. */
    method ForceRefresh(now: int, maven: Upstream.Fetch<seq<string>>, fetched: Upstream.Fetch<Option<map<string, string>>>)
      modifies this, store
      ensures maven.FetchFailed? ==> store.entries == old(store.entries)
      ensures maven.Fetched? ==>
        store.entries == old(store.entries)["all" := TtlCache.Entry(Upstream.VersionTexts(maven.value), now + old(store.ttl))]
      ensures maven.Fetched? && fetched.Fetched? ==>
        promotionsCache == Some(TtlCache.Entry(fetched.value, now + old(store.ttl)))
      ensures maven.FetchFailed? || fetched.FetchFailed? ==> promotionsCache == old(promotionsCache)
      ensures store.ttl == old(store.ttl)
    {
      if maven.FetchFailed? {
        return;
      }
      Upstream.RefreshMavenVersions(store, now, maven);
      if fetched.Fetched? {
        promotionsCache := Some(TtlCache.Entry(fetched.value, now + store.ttl));
      }
    }
  }
}
