/** The few `java.lang.String` operations the engine relies on, with Java's
    own edge cases: `split` drops trailing empty strings, `trim` strips every
    character up to U+0020, `compareTo` answers with the difference of the first
    differing characters or of the lengths, `Integer.parseInt` accepts one sign. */
module JavaString {
  import opened Wrappers
  import Streams

  /** The pieces between the occurrences of `c`, empty pieces included. */
  function Pieces(s: string, c: char): (r: seq<string>)
    ensures |r| >= 1
    ensures forall i :: 0 <= i < |r| ==> c !in r[i]
    decreases |s|
  {
    var i := Streams.IndexOf(s, c);
    if i == -1 then [s] else [s[..i]] + Pieces(s[i + 1..], c)
  }

  /** Java's `split` with limit 0 removes trailing empty strings. */
  function StripTrailingEmpty(ps: seq<string>): (r: seq<string>)
    ensures |r| <= |ps| && r == ps[..|r|]
    ensures |r| > 0 ==> r[|r| - 1] != ""
    ensures forall i :: |r| <= i < |ps| ==> ps[i] == ""
  {
    if |ps| == 0 then []
    else if ps[|ps| - 1] == "" then StripTrailingEmpty(ps[..|ps| - 1])
    else ps
  }

  lemma IndexOfAfterPrefix(a: string, c: char, b: string)
    requires c !in a
    ensures Streams.IndexOf(a + [c] + b, c) == |a|
  {
    var s := a + [c] + b;
    var r := Streams.IndexOf(s, c);
    assert s[|a|] == c;
    assert forall j :: 0 <= j < |a| ==> s[j] == a[j];
  }

  /** Two pieces joined by `c` split back into the same two pieces. */
  lemma PiecesOfJoin(a: string, c: char, b: string)
    requires c !in a && c !in b
    ensures Pieces(a + [c] + b, c) == [a, b]
  {
    var s := a + [c] + b;
    IndexOfAfterPrefix(a, c, b);
    assert s[..|a|] == a;
    assert s[|a| + 1..] == b;
  }

  /** A piece free of `c`, then `c`, then the rest: the piece comes first. */
  lemma PiecesCons(a: string, c: char, b: string)
    requires c !in a
    ensures Pieces(a + [c] + b, c) == [a] + Pieces(b, c)
  {
    var s := a + [c] + b;
    IndexOfAfterPrefix(a, c, b);
    assert s[..|a|] == a;
    assert s[|a| + 1..] == b;
  }

  /** Two pieces joined by `c` split back into the same two pieces when the
      second is not empty. */
  lemma SplitTwo(a: string, b: string, c: char)
    requires c !in a && c !in b && b != ""
    ensures Split(a + [c] + b, c) == [a, b]
  {
    var s := a + [c] + b;
    assert s[|a|] == c;
    PiecesOfJoin(a, c, b);
    assert StripTrailingEmpty(Pieces(s, c)) == Pieces(s, c);
  }

  /** Three pieces joined by `c` split back into the same three pieces when
      the last is not empty. */
  lemma SplitThree(a: string, b: string, d: string, c: char)
    requires c !in a && c !in b && c !in d && d != ""
    ensures Split(a + [c] + (b + [c] + d), c) == [a, b, d]
  {
    var s := a + [c] + (b + [c] + d);
    assert s[|a|] == c;
    PiecesCons(a, c, b + [c] + d);
    PiecesOfJoin(b, c, d);
    var ps := Pieces(s, c);
    assert ps == [a, b, d];
    assert StripTrailingEmpty(ps) == ps;
  }

  /** The first two pieces, joined by `c`, are a prefix of the string. */
  lemma PiecesFirstTwoPrefix(s: string, c: char)
    requires |Pieces(s, c)| >= 2
    ensures StartsWith(s, Pieces(s, c)[0] + [c] + Pieces(s, c)[1])
  {
    PiecesJoin(s, c);
    JoinFirstTwoPrefix(Pieces(s, c), c);
  }

  /** Joining with `c` starts with the first two elements and `c` between them. */
  lemma JoinFirstTwoPrefix(ps: seq<string>, c: char)
    requires |ps| >= 2
    ensures StartsWith(Join(ps, c), ps[0] + [c] + ps[1])
  {
    var tail := Join(ps[1..], c);
    assert Join(ps, c) == (ps[0] + [c]) + tail;
    if |ps| > 2 {
      assert tail == ps[1] + [c] + Join(ps[2..], c) by {
        assert ps[1..][1..] == ps[2..];
      }
    }
    assert tail[..|ps[1]|] == ps[1];
  }

  /** `s.split(regex)` for a regex matching the single character `c`
      (`"\\."`, `"-"`, `","`): a string without `c` is returned whole, even
      when it is empty; otherwise the pieces without the trailing empty ones. */
  function Split(s: string, c: char): (r: seq<string>)
    ensures forall i :: 0 <= i < |r| ==> c !in r[i]
    ensures c !in s ==> r == [s]
  {
    if c !in s then [s] else StripTrailingEmpty(Pieces(s, c))
  }

  /** The pieces joined back with `c` give the text without its trailing
      copies of `c`: the last piece of a text holding `c` is not empty. */
  lemma SplitJoin(s: string, c: char)
    ensures var r := Split(s, c); JoinedUpToTail(s, Join(r, c), c) && (c in s && |r| > 0 ==> r[|r| - 1] != "")
  {
    if c in s {
      PiecesJoin(s, c);
      StripJoin(Pieces(s, c), c);
    }
  }

  /** The pieces with `c` between each two of them: `String.join`. */
  function Join(ps: seq<string>, c: char): (r: string)
    ensures |ps| == 1 ==> r == ps[0]
  {
    if |ps| == 0 then ""
    else if |ps| == 1 then ps[0]
    else ps[0] + [c] + Join(ps[1..], c)
  }

  /** `s` is `j` followed by nothing but copies of `c`. */
  predicate JoinedUpToTail(s: string, j: string, c: char) {
    StartsWith(s, j) && forall k :: |j| <= k < |s| ==> s[k] == c
  }

  /** Joining the pieces with `c` gives the text back. */
  lemma {:induction false} PiecesJoin(s: string, c: char)
    ensures Join(Pieces(s, c), c) == s
    decreases |s|
  {
    var i := Streams.IndexOf(s, c);
    if i != -1 {
      var rest := s[i + 1..];
      PiecesJoin(rest, c);
      assert Pieces(s, c)[1..] == Pieces(rest, c);
      assert s == s[..i] + [c] + rest;
    }
  }

  /** A further piece adds `c` and that piece at the end. */
  lemma {:induction false} JoinSnoc(ps: seq<string>, x: string, c: char)
    requires |ps| >= 1
    ensures Join(ps + [x], c) == Join(ps, c) + [c] + x
    decreases |ps|
  {
    if |ps| > 1 {
      assert (ps + [x])[1..] == ps[1..] + [x];
      JoinSnoc(ps[1..], x, c);
    }
  }

  /** Dropping trailing empty pieces drops only trailing copies of `c`. */
  lemma {:induction false} StripJoin(ps: seq<string>, c: char)
    requires |ps| >= 1
    ensures JoinedUpToTail(Join(ps, c), Join(StripTrailingEmpty(ps), c), c)
    decreases |ps|
  {
    if ps[|ps| - 1] == "" {
      var init := ps[..|ps| - 1];
      if |init| == 0 {
        assert ps == [""];
      } else {
        assert ps == init + [""];
        JoinSnoc(init, "", c);
        StripJoin(init, c);
        var j, t := Join(StripTrailingEmpty(init), c), Join(init, c);
        assert Join(ps, c) == t + [c];
        assert JoinedUpToTail(t + [c], j, c) by {
          assert (t + [c])[..|j|] == t[..|j|];
        }
      }
    }
  }

  /** `Character.isWhitespace`: the Unicode space separators other than the
      no-break spaces, and the control characters TAB to CR and FS to US. */
  predicate IsWhitespace(c: char) {
    || c == ' ' || ('\t' <= c <= '\r') || ('\U{1C}' <= c <= '\U{1F}')
    || c == '\U{1680}' || ('\U{2000}' <= c <= '\U{2006}') || ('\U{2008}' <= c <= '\U{200A}')
    || c == '\U{2028}' || c == '\U{2029}' || c == '\U{205F}' || c == '\U{3000}'
  }

  /** `s.isBlank()` */
  predicate IsBlank(s: string) {
    forall i :: 0 <= i < |s| ==> IsWhitespace(s[i])
  }

  function TrimStart(s: string): (r: string)
    ensures |r| <= |s| && r == s[|s| - |r|..]
    ensures |r| > 0 ==> r[0] > ' '
    ensures forall i :: 0 <= i < |s| - |r| ==> s[i] <= ' '
  {
    if |s| > 0 && s[0] <= ' ' then TrimStart(s[1..]) else s
  }

  function TrimEnd(s: string): (r: string)
    ensures |r| <= |s| && r == s[..|r|]
    ensures |r| > 0 ==> r[|r| - 1] > ' '
    ensures forall i :: |r| <= i < |s| ==> s[i] <= ' '
  {
    if |s| > 0 && s[|s| - 1] <= ' ' then TrimEnd(s[..|s| - 1]) else s
  }

  /** `s.trim()`: removes every character up to U+0020 from both ends. */
  function Trim(s: string): (r: string)
    ensures |r| > 0 ==> r[0] > ' ' && r[|r| - 1] > ' '
    ensures Trimmed(r)
  {
    var t := TrimStart(s);
    var r := TrimEnd(t);
    assert |r| > 0 ==> r[0] == t[0];
    r
  }

  /** The trim is the middle of the text: only characters up to U+0020 are
      removed, and only at the two ends. */
  lemma TrimIsMiddle(s: string)
    ensures exists i, j :: 0 <= i <= j <= |s| && Trim(s) == s[i..j] && TrimmedAway(s, i, j)
  {
    var t := TrimStart(s);
    var r := TrimEnd(t);
    var i := |s| - |t|;
    var j := i + |r|;
    assert r == s[i..j];
    assert TrimmedAway(s, i, j) by {
      forall k | j <= k < |s| ensures s[k] <= ' ' {
        assert s[k] == t[k - i];
      }
    }
  }

  /** Everything before `i` and from `j` on is a character up to U+0020. */
  predicate TrimmedAway(s: string, i: nat, j: nat)
    requires i <= j <= |s|
  {
    (forall k :: 0 <= k < i ==> s[k] <= ' ') && (forall k :: j <= k < |s| ==> s[k] <= ' ')
  }

  predicate Trimmed(s: string) {
    |s| > 0 ==> s[0] > ' ' && s[|s| - 1] > ' '
  }

  lemma TrimOfTrimmed(s: string)
    requires Trimmed(s)
    ensures Trim(s) == s
  {
  }

  predicate StartsWith(s: string, prefix: string) {
    |prefix| <= |s| && s[..|prefix|] == prefix
  }

  /** `s.replace(target, replacement)`: every non-overlapping occurrence,
      scanning from the left. */
  function ReplaceAll(s: string, target: string, replacement: string): (r: string)
    requires |target| > 0
    ensures forall ch :: ch in r ==> ch in s || ch in replacement
    ensures replacement == target ==> r == s
    decreases |s|
  {
    if |s| == 0 then s
    else if StartsWith(s, target) then replacement + ReplaceAll(s[|target|..], target, replacement)
    else [s[0]] + ReplaceAll(s[1..], target, replacement)
  }

  lemma ReplaceAllAbsent(s: string, target: char, replacement: string)
    requires target !in s
    ensures ReplaceAll(s, [target], replacement) == s
  {
    if |s| > 0 {
      ReplaceAllAbsent(s[1..], target, replacement);
      assert s == [s[0]] + s[1..];
    }
  }

  /** A text lacking one of the target's characters holds no occurrence. */
  lemma {:induction false} ReplaceAllMissing(s: string, target: string, replacement: string, k: nat)
    requires k < |target| && target[k] !in s
    ensures ReplaceAll(s, target, replacement) == s
    decreases |s|
  {
    if |s| > 0 {
      assert !StartsWith(s, target);
      ReplaceAllMissing(s[1..], target, replacement, k);
      assert s == [s[0]] + s[1..];
    }
  }

  /** A leading occurrence is replaced and the scan goes on after it. */
  lemma ReplaceAllLeading(target: string, rest: string, replacement: string)
    requires |target| > 0
    ensures ReplaceAll(target + rest, target, replacement) == replacement + ReplaceAll(rest, target, replacement)
  {
    assert (target + rest)[..|target|] == target;
    assert (target + rest)[|target|..] == rest;
  }

  /** `a.compareTo(b)`: the difference of the first differing characters,
      else the difference of the lengths. */
  function CompareTo(a: string, b: string): (r: int)
    ensures r == 0 <==> a == b
    ensures |a| <= |b| && b[..|a|] == a ==> r == |a| - |b|
  {
    if |a| == 0 || |b| == 0 then |a| - |b|
    else if a[0] != b[0] then a[0] as int - b[0] as int
    else CompareTo(a[1..], b[1..])
  }

  lemma {:induction false} CompareToAntisymmetric(a: string, b: string)
    ensures CompareTo(a, b) == -CompareTo(b, a)
  {
    if |a| > 0 && |b| > 0 && a[0] == b[0] {
      CompareToAntisymmetric(a[1..], b[1..]);
    }
  }

  lemma {:induction false} CompareToTransitive(a: string, b: string, c: string)
    requires CompareTo(a, b) <= 0 && CompareTo(b, c) <= 0
    ensures CompareTo(a, c) <= 0
  {
    if |a| > 0 && |b| > 0 && |c| > 0 && a[0] == b[0] && b[0] == c[0] {
      CompareToTransitive(a[1..], b[1..], c[1..]);
    }
  }

  /** After a common prefix, the first differing characters decide. */
  lemma {:induction false} CompareToAt(a: string, b: string, k: nat)
    requires k < |a| && k < |b| && a[k] != b[k]
    requires forall i :: 0 <= i < k ==> a[i] == b[i]
    ensures CompareTo(a, b) == a[k] as int - b[k] as int
  {
    if k > 0 {
      assert a[0] == b[0];
      CompareToAt(a[1..], b[1..], k - 1);
    }
  }

  predicate IsDigit(c: char) { '0' <= c <= '9' }

  predicate AllDigits(s: string) {
    forall i :: 0 <= i < |s| ==> IsDigit(s[i])
  }

  function DigitsValue(s: string): (r: nat)
    requires AllDigits(s)
  {
    if |s| == 0 then 0
    else
      assert IsDigit(s[|s| - 1]);
      DigitsValue(s[..|s| - 1]) * 10 + (s[|s| - 1] as int - '0' as int)
  }

  const IntMin: int := -0x8000_0000
  const IntMax: int := 0x7FFF_FFFF

  /** `Integer.parseInt(s)`: an optional sign, at least one digit, and a value
      within the range of a 32-bit `int`; anything else throws
      `NumberFormatException`, which is `None` here. */
  function ParseInt(s: string): (r: Option<int>)
    ensures r.Some? ==> IntMin <= r.value <= IntMax
    ensures r.Some? ==> (|s| > 0 && AllDigits(s)) || (|s| > 1 && (s[0] == '+' || s[0] == '-') && AllDigits(s[1..]))
    ensures |s| > 0 && AllDigits(s) ==>
      r == if DigitsValue(s) <= IntMax then Some(DigitsValue(s)) else None
    ensures |s| > 1 && s[0] == '+' && AllDigits(s[1..]) ==>
      r == if DigitsValue(s[1..]) <= IntMax then Some(DigitsValue(s[1..])) else None
    ensures |s| > 1 && s[0] == '-' && AllDigits(s[1..]) ==>
      r == if DigitsValue(s[1..]) <= -IntMin then Some(-(DigitsValue(s[1..]) as int)) else None
  {
    if |s| == 0 then None
    else
      var neg := s[0] == '-';
      var digits := if s[0] == '-' || s[0] == '+' then s[1..] else s;
      if |digits| == 0 || !AllDigits(digits) then None
      else
        var v := if neg then -(DigitsValue(digits) as int) else DigitsValue(digits) as int;
        if IntMin <= v <= IntMax then Some(v) else None
  }

  /** The decimal digits of `n`, without leading zeros. */
  function NatToDigits(n: nat): (r: string)
    ensures |r| > 0 && AllDigits(r) && DigitsValue(r) == n
    ensures r[0] == '0' ==> r == "0"
  {
    var d := ('0' as int + n % 10) as char;
    if n < 10 then [d]
    else
      var front := NatToDigits(n / 10);
      var r := front + [d];
      assert r[..|r| - 1] == front;
      r
  }

  /** `Integer.toString(n)`: a `-` before the digits of a negative number. */
  function IntToString(n: int): (r: string)
    ensures |r| > 0 && (r[0] == '-' <==> n < 0)
    ensures n < 0 ==> r[1..] == NatToDigits(-n)
    ensures n >= 0 ==> r == NatToDigits(n)
  {
    if n < 0 then "-" + NatToDigits(-n) else NatToDigits(n)
  }

  /** Reading back the text of an `int` gives the `int`. */
  lemma ParseIntOfIntToString(n: int)
    requires IntMin <= n <= IntMax
    ensures ParseInt(IntToString(n)) == Some(n)
  {
    var t := IntToString(n);
    if n < 0 {
      assert t[0] == '-' && t[1..] == NatToDigits(-n);
    }
  }

  /** One decimal digit parses to its value. */
  lemma ParseOneDigit(s: string)
    requires |s| == 1 && IsDigit(s[0])
    ensures ParseInt(s) == Some(s[0] as int - '0' as int)
  {
    assert s[..0] == [];
    assert DigitsValue(s) == s[0] as int - '0' as int;
  }

  /** Two decimal digits parse to their value. */
  lemma ParseTwoDigits(s: string)
    requires |s| == 2 && IsDigit(s[0]) && IsDigit(s[1])
    ensures ParseInt(s) == Some((s[0] as int - '0' as int) * 10 + (s[1] as int - '0' as int))
  {
    var head := s[..1];
    assert head[..0] == [] && head[0] == s[0];
    assert DigitsValue(head) == s[0] as int - '0' as int;
    assert DigitsValue(s) == DigitsValue(head) * 10 + (s[1] as int - '0' as int);
  }

  /** An unsigned text holding a character other than a digit does not parse. */
  lemma ParseIntNonDigit(s: string, i: nat)
    requires i < |s| && s[0] != '-' && s[0] != '+' && !IsDigit(s[i])
    ensures ParseInt(s).None?
  {
    assert !AllDigits(s);
  }

  /** `s.toLowerCase(Locale.ROOT)` restricted to the ASCII letters. */
  function ToLowerAscii(s: string): (r: string)
    ensures |r| == |s|
    ensures forall i :: 0 <= i < |s| ==> r[i] == (if 'A' <= s[i] <= 'Z' then (s[i] as int + 32) as char else s[i])
  {
    if |s| == 0 then [] else
      var c := s[0];
      [if 'A' <= c <= 'Z' then (c as int + 32) as char else c] + ToLowerAscii(s[1..])
  }

  /** The narrowing `(int)` of an integer: its low 32 bits read as a two's
      complement number. */
  function NarrowToInt(n: int): (r: int)
    ensures IntMin <= r <= IntMax
    ensures (r - n) % 0x1_0000_0000 == 0
    ensures IntMin <= n <= IntMax ==> r == n
  {
    (n - IntMin) % 0x1_0000_0000 + IntMin
  }

  /** `Boolean.parseBoolean(s)`: `true` exactly for the four letters of
      "true", each in either case. */
  function ParseBoolean(s: string): (r: bool)
    ensures r <==> |s| == 4 && forall i :: 0 <= i < 4 ==> s[i] == "true"[i] || s[i] == "TRUE"[i]
  {
    ToLowerAscii(s) == "true"
  }
}
