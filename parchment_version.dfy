/** `ParchmentVersion`: a Parchment release (`version` such as
    `2024.01.01`, the base version it maps, a stability flag), ordered by the
    calendar date its version denotes once every `.` is read as `-`. A
    version that is not such a date makes the comparison throw. */
module Parchment {
  import opened Wrappers
  import JavaString

  datatype ParchmentVersion = ParchmentVersion(version: string, minecraftVersion: string, isStable: bool)

  /** A `LocalDate`. */
  datatype Date = Date(year: int, month: int, day: int)

  predicate IsLeap(y: int) {
    (y % 4 == 0 && y % 100 != 0) || y % 400 == 0
  }

  function DaysInMonth(y: int, m: int): (r: int)
    requires 1 <= m <= 12
    ensures 28 <= r <= 31
  {
    if m == 2 then (if IsLeap(y) then 29 else 28)
    else if m == 4 || m == 6 || m == 9 || m == 11 then 30
    else 31
  }

  predicate ValidDate(d: Date) {
    0 <= d.year <= 9999 && 1 <= d.month <= 12 && 1 <= d.day <= DaysInMonth(d.year, d.month)
  }

  /** `LocalDate.parse` with the ISO local-date format, for four-digit
      years: `YYYY-MM-DD`, with the day checked against the month, leap
      years included. */
  function ParseIsoDate(s: string): (r: Option<Date>)
    ensures r.Some? ==> ValidDate(r.value)
    ensures r.Some? ==> |s| == 10 && s[4] == '-' && s[7] == '-'
  {
    if |s| != 10 || s[4] != '-' || s[7] != '-' then None
    else if !JavaString.AllDigits(s[..4]) || !JavaString.AllDigits(s[5..7]) || !JavaString.AllDigits(s[8..]) then None
    else
      var y := JavaString.DigitsValue(s[..4]);
      var m := JavaString.DigitsValue(s[5..7]);
      var d := JavaString.DigitsValue(s[8..]);
      FourDigitsBound(s[..4]);
      if 1 <= m <= 12 && 1 <= d <= DaysInMonth(y, m) then Some(Date(y, m, d)) else None
  }

  lemma FourDigitsBound(s: string)
    requires |s| == 4 && JavaString.AllDigits(s)
    ensures 0 <= JavaString.DigitsValue(s) <= 9999
  {
    assert s[..3][..2] == s[..2] && s[..2][..1] == s[..1] && s[..1][..0] == [];
    assert JavaString.DigitsValue(s[..1]) <= 9;
    assert JavaString.DigitsValue(s[..2]) <= 99;
    assert JavaString.DigitsValue(s[..3]) <= 999;
  }

  /** The digit character of `n`, for `0 <= n <= 9`. */
  function Digit(n: int): char
    requires 0 <= n <= 9
  {
    ('0' as int + n) as char
  }

  /** `n` written with exactly two digits. */
  function Pad2(n: int): (r: string)
    requires 0 <= n <= 99
    ensures |r| == 2 && JavaString.AllDigits(r) && '-' !in r && '.' !in r
  {
    [Digit(n / 10), Digit(n % 10)]
  }

  /** `n` written with exactly four digits. */
  function Pad4(n: int): (r: string)
    requires 0 <= n <= 9999
    ensures |r| == 4 && JavaString.AllDigits(r) && '-' !in r && '.' !in r
  {
    Pad2(n / 100) + Pad2(n % 100)
  }

  lemma Pad2Value(n: int)
    requires 0 <= n <= 99
    ensures JavaString.DigitsValue(Pad2(n)) == n
  {
    var s := Pad2(n);
    assert s[..1][..0] == [];
    assert JavaString.DigitsValue(s[..1]) == n / 10;
  }

  lemma Pad4Value(n: int)
    requires 0 <= n <= 9999
    ensures JavaString.DigitsValue(Pad4(n)) == n
  {
    Pad2Value(n / 100);
    Pad2Value(n % 100);
    DigitsValueAppendTwo(Pad2(n / 100), Pad2(n % 100));
  }

  /** Appending two digits multiplies by a hundred and adds them. */
  lemma DigitsValueAppendTwo(a: string, b: string)
    requires JavaString.AllDigits(a) && JavaString.AllDigits(b) && |b| == 2
    ensures JavaString.AllDigits(a + b)
    ensures JavaString.DigitsValue(a + b) == JavaString.DigitsValue(a) * 100 + JavaString.DigitsValue(b)
  {
    var s, t := a + b, a + [b[0]];
    assert JavaString.AllDigits(s) && JavaString.AllDigits(t);
    assert s[..|s| - 1] == t && s[|s| - 1] == b[1];
    assert t[..|t| - 1] == a && t[|t| - 1] == b[0];
    assert b[..1][..0] == [] && b[..1] == [b[0]];
    var d0, d1 := b[0] as int - '0' as int, b[1] as int - '0' as int;
    assert JavaString.DigitsValue(t) == JavaString.DigitsValue(a) * 10 + d0;
    assert JavaString.DigitsValue(s) == JavaString.DigitsValue(t) * 10 + d1;
    assert b[..|b| - 1] == [b[0]] && [b[0]][..0] == [];
    assert JavaString.DigitsValue([b[0]]) == d0;
    assert JavaString.DigitsValue(b) == d0 * 10 + d1;
  }

  /** `LocalDate.toString()` for a four-digit year. */
  function FormatIso(d: Date): (r: string)
    requires ValidDate(d)
    ensures |r| == 10
  {
    Pad4(d.year) + "-" + Pad2(d.month) + "-" + Pad2(d.day)
  }

  /** Every valid date reads back from its ISO text. */
  lemma ParseFormatIso(d: Date)
    requires ValidDate(d)
    ensures ParseIsoDate(FormatIso(d)) == Some(d)
  {
    var s := FormatIso(d);
    assert s[..4] == Pad4(d.year);
    assert s[5..7] == Pad2(d.month);
    assert s[8..] == Pad2(d.day);
    Pad4Value(d.year);
    Pad2Value(d.month);
    Pad2Value(d.day);
  }

  /** The date a Parchment version denotes: every `.` replaced by `-`,
      then parsed. */
  function DateOf(version: string): (r: Option<Date>)
    ensures r.Some? ==> ValidDate(r.value)
  {
    ParseIsoDate(JavaString.ReplaceAll(version, ".", "-"))
  }

  /** A version as Parchment writes it, `YYYY.MM.DD`. */
  function FormatDotted(d: Date): string
    requires ValidDate(d)
  {
    Pad4(d.year) + "." + Pad2(d.month) + "." + Pad2(d.day)
  }

  /** Replacing a one-character target in a text where it occurs once. */
  lemma ReplaceAllOnce(a: string, c: char, b: string, replacement: string)
    requires c !in a
    ensures JavaString.ReplaceAll(a + [c] + b, [c], replacement) == a + replacement + JavaString.ReplaceAll(b, [c], replacement)
  {
    if |a| == 0 {
      assert a + [c] + b == [c] + b;
      assert ([c] + b)[1..] == b;
    } else {
      var s := a + [c] + b;
      assert s[1..] == a[1..] + [c] + b;
      assert s[0] == a[0] && a[0] != c;
      assert !JavaString.StartsWith(s, [c]);
      ReplaceAllOnce(a[1..], c, b, replacement);
      assert a == [a[0]] + a[1..];
    }
  }

  /** Every valid date reads back from its dotted version text. */
  lemma DateOfDotted(d: Date)
    requires ValidDate(d)
    ensures DateOf(FormatDotted(d)) == Some(d)
  {
    var y, m, dd := Pad4(d.year), Pad2(d.month), Pad2(d.day);
    assert FormatDotted(d) == y + ['.'] + (m + ['.'] + dd);
    ReplaceAllOnce(y, '.', m + ['.'] + dd, "-");
    ReplaceAllOnce(m, '.', dd, "-");
    JavaString.ReplaceAllAbsent(dd, '.', "-");
    assert y + "-" + (m + "-" + dd) == FormatIso(d);
    ParseFormatIso(d);
  }

  /** A version already written with `-` denotes its date too. */
  lemma DateOfIso(d: Date)
    requires ValidDate(d)
    ensures DateOf(FormatIso(d)) == Some(d)
  {
    JavaString.ReplaceAllAbsent(FormatIso(d), '.', "-");
    ParseFormatIso(d);
  }

  /** `LocalDate.compareTo`: the difference of the years, else of the
      months, else of the days. */
  function CompareDates(a: Date, b: Date): (r: int)
    ensures r == 0 <==> a == b
    ensures r < 0 <==> a.year < b.year || (a.year == b.year && (a.month < b.month || (a.month == b.month && a.day < b.day)))
  {
    if a.year != b.year then a.year - b.year
    else if a.month != b.month then a.month - b.month
    else a.day - b.day
  }

  /** `compareTo`: the dates of the two versions compared; `Err` when either
      version is not a date (the parse throws). The base version and the
      stability flag play no part. */
  function Compare(a: ParchmentVersion, b: ParchmentVersion): (r: Result<int>)
    ensures r.Ok? <==> DateOf(a.version).Some? && DateOf(b.version).Some?
    ensures r.Ok? ==> r.value == CompareDates(DateOf(a.version).value, DateOf(b.version).value)
  {
    var da := DateOf(a.version);
    if da.None? then Err
    else
      var db := DateOf(b.version);
      if db.None? then Err else Ok(CompareDates(da.value, db.value))
  }

  /** The key the sort uses; only ever consulted on lists whose every version
      is a date. */
  function SortKey(v: ParchmentVersion): Date {
    DateOf(v.version).GetOr(Date(0, 0, 0))
  }

  /** The comparator the sort receives, total on every version. */
  function SortCompare(): (ParchmentVersion, ParchmentVersion) -> int {
    (a: ParchmentVersion, b: ParchmentVersion) => CompareDates(SortKey(a), SortKey(b))
  }

  /** On two dates the sort comparator is `compareTo`. */
  lemma SortCompareIsCompare(a: ParchmentVersion, b: ParchmentVersion)
    requires DateOf(a.version).Some? && DateOf(b.version).Some?
    ensures Compare(a, b) == Ok(SortCompare()(a, b))
  {
  }

  /** Calendar order is a total preorder: swapping negates exactly, and
      "not after" chains. */
  lemma CompareDatesAntisymmetric(a: Date, b: Date)
    ensures CompareDates(a, b) == -CompareDates(b, a)
  {
  }

  lemma CompareDatesTransitive(a: Date, b: Date, c: Date)
    requires CompareDates(a, b) <= 0 && CompareDates(b, c) <= 0
    ensures CompareDates(a, c) <= 0
  {
  }

  /** Two versions with the same text compare equal whatever their base
      versions and flags. */
  lemma SameVersionEqual(a: ParchmentVersion, b: ParchmentVersion)
    requires a.version == b.version && DateOf(a.version).Some?
    ensures Compare(a, b) == Ok(0)
  {
  }
}
