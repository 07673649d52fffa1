/** The field projection of the piston-meta endpoint: a request body names
    dotted paths on `fields ` lines, and the answer keeps only those paths
    of the version document, a `*` segment keeping a whole level. */
module FieldProjection {
  import opened Wrappers
  import JavaString
  import opened Json

  // ---------------------------------------------------------------------
  // getFieldsFromBody

  /** The piece ends with a carriage return. */
  predicate EndsWithCR(p: string) {
    |p| > 0 && p[|p| - 1] == '\r'
  }

  /** Piece `i` of `ps` is `line` with the `\r` of a `\r\n` break put back:
      only a piece followed by a break can have lost one. */
  predicate LineOfPiece(ps: seq<string>, i: nat, line: string)
    requires i < |ps|
  {
    if i < |ps| - 1 && EndsWithCR(ps[i]) then ps[i] == line + "\r" else ps[i] == line
  }

  /** Line `i`, or the empty text past the last line. */
  function LineOrEmpty(lines: seq<string>, i: nat): string {
    if i < |lines| then lines[i] else ""
  }

  /** A piece followed by a line break loses the `\r` of a `\r\n`. */
  function DropCarriageReturns(ps: seq<string>): (r: seq<string>)
    ensures |r| == |ps|
    ensures forall i :: 0 <= i < |ps| ==> LineOfPiece(ps, i, r[i])
  {
    if |ps| <= 1 then ps
    else
      var p := ps[0];
      var rest := DropCarriageReturns(ps[1..]);
      var r := [if EndsWithCR(p) then p[..|p| - 1] else p] + rest;
      assert forall i :: 1 <= i < |ps| ==> LineOfPiece(ps[1..], i - 1, rest[i - 1]) && ps[1..][i - 1] == ps[i] && r[i] == rest[i - 1];
      r
  }

  /** `body.split("\r?\n")`: the lines between `\n` or `\r\n` breaks, without
      the trailing empty ones; a body without a break is one line. With
      JavaString.PiecesJoin (the pieces joined by `\n` are the body), this
      says that the body is the lines, each with the `\r` of its break put
      back, joined by `\n`, followed only by breaks. */
  function Lines(body: string): (r: seq<string>)
    ensures '\n' !in body ==> r == [body]
    ensures '\n' in body ==> var ps := JavaString.Pieces(body, '\n');
      |r| <= |ps| && (|r| > 0 ==> r[|r| - 1] != "") &&
      forall i :: 0 <= i < |ps| ==> LineOfPiece(ps, i, LineOrEmpty(r, i))
  {
    if '\n' !in body then [body]
    else
      var ps := JavaString.Pieces(body, '\n');
      var d := DropCarriageReturns(ps);
      var r := JavaString.StripTrailingEmpty(d);
      assert forall i :: 0 <= i < |ps| ==> LineOfPiece(ps, i, LineOrEmpty(r, i)) by {
        forall i | 0 <= i < |ps| ensures LineOfPiece(ps, i, LineOrEmpty(r, i)) {
          assert LineOfPiece(ps, i, d[i]);
          assert d[i] == LineOrEmpty(r, i);
        }
      }
      r
  }

  const FieldsPrefix: string := "fields "

  /** The shape of every listed field: non-empty, trimmed, free of `,`. */
  predicate IsItem(x: string) {
    x != "" && JavaString.Trimmed(x) && ',' !in x
  }

  /** The piece `p` contributes the item `x`: its trim, when that is not
      empty. */
  predicate ItemOf(p: string, x: string) {
    JavaString.Trim(p) == x && x != ""
  }

  /** `x` is named on `line`: the trimmed line starts with `fields `, and
      `x` is the non-empty trim of one of the `,`-separated pieces after it. */
  predicate FieldOfLine(line: string, x: string) {
    var t := JavaString.Trim(line);
    JavaString.StartsWith(t, FieldsPrefix) &&
    exists p :: p in JavaString.Split(t[|FieldsPrefix|..], ',') && ItemOf(p, x)
  }

  /** The items of one line: nothing unless the trimmed line starts with
      `fields `; otherwise the rest split on `,`, each item trimmed, the
      empty ones dropped. */
  function LineItems(line: string): (r: seq<string>)
    ensures forall i :: 0 <= i < |r| ==> IsItem(r[i])
    ensures !JavaString.StartsWith(JavaString.Trim(line), FieldsPrefix) ==> r == []
    ensures JavaString.StartsWith(JavaString.Trim(line), FieldsPrefix) ==>
      r == NonEmptyTrimmed(JavaString.Split(JavaString.Trim(line)[|FieldsPrefix|..], ','))
  {
    var t := JavaString.Trim(line);
    if !JavaString.StartsWith(t, FieldsPrefix) then []
    else NonEmptyTrimmed(JavaString.Split(t[|FieldsPrefix|..], ','))
  }

  /** The items of a line are exactly the fields it names. */
  lemma LineItemsMembers(line: string)
    ensures forall x :: x in LineItems(line) <==> FieldOfLine(line, x)
  {
    var t := JavaString.Trim(line);
    if JavaString.StartsWith(t, FieldsPrefix) {
      NonEmptyTrimmedMembers(JavaString.Split(t[|FieldsPrefix|..], ','));
    }
  }

  /** The non-empty trims of the items, in the order of the items (with
      NonEmptyTrimmedAppend); NonEmptyTrimmedMembers says they are exactly
      the items' non-empty trims. */
  function NonEmptyTrimmed(items: seq<string>): (r: seq<string>)
    ensures forall i :: 0 <= i < |r| ==> r[i] != "" && JavaString.Trimmed(r[i])
    ensures (forall i :: 0 <= i < |items| ==> ',' !in items[i]) ==> forall i :: 0 <= i < |r| ==> ',' !in r[i]
    ensures |items| == 1 ==> r == if JavaString.Trim(items[0]) == "" then [] else [JavaString.Trim(items[0])]
  {
    if |items| == 0 then []
    else
      var head, rest := Kept(items[0]), NonEmptyTrimmed(items[1..]);
      assert forall i :: 0 <= i < |items| - 1 ==> items[1..][i] == items[i + 1];
      ShapesConcat(head, rest);
      AppendEmpty(head, rest);
      head + rest
  }

  /** Appending nothing changes nothing. */
  lemma AppendEmpty<T>(a: seq<T>, b: seq<T>)
    ensures |b| == 0 ==> a + b == a
  {
  }

  /** Concatenation keeps the shape every element of both parts has. */
  lemma ShapesConcat(a: seq<string>, b: seq<string>)
    ensures (forall i :: 0 <= i < |a| ==> a[i] != "" && JavaString.Trimmed(a[i])) &&
            (forall i :: 0 <= i < |b| ==> b[i] != "" && JavaString.Trimmed(b[i])) ==>
      forall i :: 0 <= i < |a + b| ==> (a + b)[i] != "" && JavaString.Trimmed((a + b)[i])
    ensures (forall i :: 0 <= i < |a| ==> ',' !in a[i]) && (forall i :: 0 <= i < |b| ==> ',' !in b[i]) ==>
      forall i :: 0 <= i < |a + b| ==> ',' !in (a + b)[i]
  {
  }

  /** What one piece contributes: its trim, unless that is empty. */
  function Kept(p: string): (r: seq<string>)
    ensures |r| <= 1 && forall i :: 0 <= i < |r| ==> r[i] != "" && JavaString.Trimmed(r[i])
    ensures ',' !in p ==> forall i :: 0 <= i < |r| ==> ',' !in r[i]
  {
    TrimKeepsOut(p, ',');
    var t := JavaString.Trim(p);
    if t == "" then [] else [t]
  }

  lemma {:induction false} NonEmptyTrimmedMembers(items: seq<string>)
    ensures forall x :: x in NonEmptyTrimmed(items) <==> exists p :: p in items && ItemOf(p, x)
  {
    if |items| > 0 {
      NonEmptyTrimmedMembers(items[1..]);
      var rest := NonEmptyTrimmed(items[1..]);
      var t := JavaString.Trim(items[0]);
      var r := NonEmptyTrimmed(items);
      assert r == (if t == "" then [] else [t]) + rest;
      forall x ensures x in r <==> exists p :: p in items && ItemOf(p, x) {
        if x in r {
          if x in rest {
            var p :| p in items[1..] && ItemOf(p, x);
            assert p in items;
          } else {
            assert items[0] in items && ItemOf(items[0], x);
          }
        }
        if exists p :: p in items && ItemOf(p, x) {
          var p :| p in items && ItemOf(p, x);
          if p != items[0] {
            assert p in items[1..];
          }
        }
      }
    }
  }

  lemma {:induction false} NonEmptyTrimmedAppend(a: seq<string>, b: seq<string>)
    ensures NonEmptyTrimmed(a + b) == NonEmptyTrimmed(a) + NonEmptyTrimmed(b)
    decreases |a|
  {
    if |a| > 0 {
      assert (a + b)[0] == a[0] && (a + b)[1..] == a[1..] + b;
      NonEmptyTrimmedAppend(a[1..], b);
      ConcatAssoc(Kept(a[0]), NonEmptyTrimmed(a[1..]), NonEmptyTrimmed(b));
    } else {
      assert a + b == b;
    }
  }

  /** Trimming only removes characters. */
  lemma TrimKeepsOut(s: string, c: char)
    ensures c !in s ==> c !in JavaString.Trim(s)
  {
  }

  /** `flatMap` over the lines: the items of a single line, and (with
      AllItemsAppend) the items of the lines in order. */
  function AllItems(lines: seq<string>): (r: seq<string>)
    ensures forall i :: 0 <= i < |r| ==> IsItem(r[i])
    ensures |lines| == 1 ==> r == LineItems(lines[0])
  {
    if |lines| == 0 then []
    else
      var head, rest := LineItems(lines[0]), AllItems(lines[1..]);
      ItemsConcat(head, rest);
      assert |lines| == 1 ==> rest == [];
      head + rest
  }

  lemma ItemsConcat(a: seq<string>, b: seq<string>)
    requires forall i :: 0 <= i < |a| ==> IsItem(a[i])
    requires forall i :: 0 <= i < |b| ==> IsItem(b[i])
    ensures forall i :: 0 <= i < |a + b| ==> IsItem((a + b)[i])
  {
  }

  /** An item comes from some line. */
  lemma {:induction false} AllItemsMembers(lines: seq<string>)
    ensures forall x :: x in AllItems(lines) <==> exists line :: line in lines && FieldOfLine(line, x)
  {
    if |lines| > 0 {
      AllItemsMembers(lines[1..]);
      LineItemsMembers(lines[0]);
      assert AllItems(lines) == LineItems(lines[0]) + AllItems(lines[1..]);
      assert forall line :: line in lines <==> line == lines[0] || line in lines[1..];
    }
  }

  lemma {:induction false} AllItemsAppend(a: seq<string>, b: seq<string>)
    ensures AllItems(a + b) == AllItems(a) + AllItems(b)
    decreases |a|
  {
    if |a| > 0 {
      assert (a + b)[0] == a[0] && (a + b)[1..] == a[1..] + b;
      AllItemsAppend(a[1..], b);
      ConcatAssoc(LineItems(a[0]), AllItems(a[1..]), AllItems(b));
    } else {
      assert a + b == b;
    }
  }

  lemma ConcatAssoc(x: seq<string>, y: seq<string>, z: seq<string>)
    ensures x + (y + z) == (x + y) + z
  {
  }

  /** `distinct()`: the first occurrence of every item, in order. */
  function Distinct(s: seq<string>): (r: seq<string>)
    ensures forall x :: x in r <==> x in s
    ensures forall i, j :: 0 <= i < j < |r| ==> r[i] != r[j]
  {
    if |s| == 0 then []
    else
      var init := s[..|s| - 1];
      var d := Distinct(init);
      assert s == init + [s[|s| - 1]];
      if s[|s| - 1] in init then d else d + [s[|s| - 1]]
  }

  /** The index of the first occurrence of `x`. */
  function FirstIndex(s: seq<string>, x: string): (i: nat)
    requires x in s
    ensures i < |s| && s[i] == x && forall j :: 0 <= j < i ==> s[j] != x
  {
    if s[0] == x then 0 else 1 + FirstIndex(s[1..], x)
  }

  /** `distinct()` keeps the items in the order of their first occurrence. */
  lemma {:induction false} DistinctKeepsFirstOrder(s: seq<string>)
    ensures forall i, j :: 0 <= i < j < |Distinct(s)| ==>
      FirstIndex(s, Distinct(s)[i]) < FirstIndex(s, Distinct(s)[j])
  {
    if |s| > 0 {
      var init := s[..|s| - 1];
      var x := s[|s| - 1];
      DistinctKeepsFirstOrder(init);
      var d := Distinct(init);
      forall y | y in init ensures FirstIndex(s, y) == FirstIndex(init, y) {
        FirstIndexPrefix(init, x, y);
      }
      if x !in init {
        forall i | 0 <= i < |d| ensures d[i] in s && FirstIndex(s, d[i]) < FirstIndex(s, x) {
          assert d[i] in init;
          assert FirstIndex(s, x) == |s| - 1;
        }
      }
    }
  }

  lemma {:induction false} FirstIndexPrefix(init: seq<string>, x: string, y: string)
    requires y in init
    ensures FirstIndex(init + [x], y) == FirstIndex(init, y)
  {
    if init[0] != y {
      assert (init + [x])[1..] == init[1..] + [x];
      FirstIndexPrefix(init[1..], x, y);
    }
  }

  /** `getFieldsFromBody`: no fields for a missing or blank body; otherwise
      the distinct items of the `fields ` lines, in order of first
      appearance. */
  function GetFieldsFromBody(body: Option<string>): (r: seq<string>)
    ensures body.None? || JavaString.IsBlank(body.value) ==> r == []
    ensures forall i :: 0 <= i < |r| ==> IsItem(r[i])
    ensures forall i, j :: 0 <= i < j < |r| ==> r[i] != r[j]
    ensures body.Some? && !JavaString.IsBlank(body.value) ==>
      forall x :: x in r <==> exists line :: line in Lines(body.value) && FieldOfLine(line, x)
    ensures body.Some? && !JavaString.IsBlank(body.value) ==> var all := AllItems(Lines(body.value));
      forall i, j :: 0 <= i < j < |r| ==> r[i] in all && r[j] in all && FirstIndex(all, r[i]) < FirstIndex(all, r[j])
  {
    if body.None? || JavaString.IsBlank(body.value) then []
    else
      var all := AllItems(Lines(body.value));
      AllItemsMembers(Lines(body.value));
      DistinctKeepsFirstOrder(all);
      DistinctItems(all);
      Distinct(all)
  }

  /** `distinct()` keeps the items' shape. */
  lemma DistinctItems(all: seq<string>)
    requires forall i :: 0 <= i < |all| ==> IsItem(all[i])
    ensures forall i :: 0 <= i < |Distinct(all)| ==> IsItem(Distinct(all)[i])
  {
    var r := Distinct(all);
    forall i | 0 <= i < |r| ensures IsItem(r[i]) {
      assert r[i] in all;
    }
  }

  /** A body holding one `fields` line with one field names that field. */
  lemma OneField(name: string)
    requires name != "" && JavaString.Trimmed(name) && ',' !in name && '\n' !in name
    ensures GetFieldsFromBody(Some(FieldsPrefix + name)) == [name]
  {
    var body := FieldsPrefix + name;
    assert !JavaString.IsBlank(body) by {
      assert body[0] == 'f';
    }
    assert '\n' !in body by {
      assert forall k :: 0 <= k < |body| ==> body[k] == if k < 7 then FieldsPrefix[k] else name[k - 7];
    }
    OneFieldLine(name);
    SingleLineBody(body);
    assert Distinct([name]) == [name];
  }

  /** A body on one line is read as the distinct items of that line. */
  lemma SingleLineBody(body: string)
    requires '\n' !in body && !JavaString.IsBlank(body)
    ensures GetFieldsFromBody(Some(body)) == Distinct(LineItems(body))
  {
    assert Lines(body) == [body];
  }

  lemma OneFieldLine(name: string)
    requires name != "" && JavaString.Trimmed(name) && ',' !in name
    ensures LineItems(FieldsPrefix + name) == [name]
  {
    PrefixedItems(name);
    assert JavaString.Split(name, ',') == [name];
    OneItem(name);
  }

  /** A `fields ` line that needs no trimming lists the items of its rest. */
  lemma PrefixedItems(name: string)
    requires name != "" && JavaString.Trimmed(name)
    ensures LineItems(FieldsPrefix + name) == NonEmptyTrimmed(JavaString.Split(name, ','))
  {
    var line := FieldsPrefix + name;
    PrefixedTrimmed(name);
    PrefixOfJoin(FieldsPrefix, name);
    TrimmedLineItems(line);
  }

  lemma PrefixOfJoin(a: string, b: string)
    ensures JavaString.StartsWith(a + b, a) && (a + b)[|a|..] == b
  {
    assert (a + b)[..|a|] == a;
  }

  lemma TrimmedLineItems(line: string)
    requires JavaString.Trim(line) == line && JavaString.StartsWith(line, FieldsPrefix)
    ensures LineItems(line) == NonEmptyTrimmed(JavaString.Split(line[|FieldsPrefix|..], ','))
  {
  }

  lemma PrefixedTrimmed(name: string)
    requires name != "" && JavaString.Trimmed(name)
    ensures JavaString.Trim(FieldsPrefix + name) == FieldsPrefix + name
  {
    var body := FieldsPrefix + name;
    assert body[0] == 'f' && body[|body| - 1] == name[|name| - 1];
    JavaString.TrimOfTrimmed(body);
  }

  lemma OneItem(name: string)
    requires name != "" && JavaString.Trimmed(name) && ',' !in name
    ensures NonEmptyTrimmed([name]) == [name]
  {
    JavaString.TrimOfTrimmed(name);
    assert [name][1..] == [];
  }

  /** A field named twice, on one line or on two, is kept once. */
  lemma DuplicateKeptOnce(a: string, b: string)
    ensures Distinct([a, b, a]) == if a == b then [a] else [a, b]
  {
    assert [a, b, a][..2] == [a, b] && [a, b][..1] == [a] && [a][..0] == [];
    assert Distinct([a]) == [a];
    assert Distinct([a, b]) == if a == b then [a] else [a, b];
  }

  // ---------------------------------------------------------------------
  // filterJsonObject, as a function on values

  /** The value reached from `m` along `path`: every step but the last
      goes through an object. */
  function ValueAt(m: map<string, Json>, path: seq<string>): Option<Json>
    decreases |path|
  {
    if |path| == 0 || path[0] !in m then None
    else if |path| == 1 then Some(m[path[0]])
    else if m[path[0]].JObject? then ValueAt(m[path[0]].members, path[1..])
    else None
  }

  /** One path applied to the filtered object `f` against the original
      object `o`: an existing last key is copied; an existing inner key is
      descended into, reusing a filtered object under that key or replacing
      a non-object there by an empty one, and descending through an
      original value that is not an object fails; a missing `*` copies the
      whole level; any other missing key ends the path. A path that leads
      to a value of the original succeeds and puts that value at the same
      place; keys the original lacks keep their filtered values. */
  function ApplyPath(f: map<string, Json>, o: map<string, Json>, path: seq<string>): (r: Result<map<string, Json>>)
    ensures r.Ok? ==> r.value.Keys <= f.Keys + o.Keys
    ensures r.Ok? ==> f.Keys <= r.value.Keys
    ensures r.Ok? ==> forall k :: k in f && k !in o ==> r.value[k] == f[k]
    ensures ValueAt(o, path).Some? ==> r.Ok? && ValueAt(r.value, path) == ValueAt(o, path)
    ensures r.Ok? && |path| > 0 && !(path[0] == "*" && "*" !in o) ==>
      forall k :: k != path[0] ==> (k in r.value <==> k in f) && (k in f ==> r.value[k] == f[k])
    decreases |path|
  {
    if |path| == 0 then Ok(f)
    else
      var key := path[0];
      if key in o then
        if |path| == 1 then Ok(f[key := o[key]])
        else if !o[key].JObject? then Err
        else
          var child := ChildObject(f, key);
          var inner := ApplyPath(child, o[key].members, path[1..]);
          if inner.Err? then Err else Ok(f[key := JObject(inner.value)])
      else if key == "*" then Ok(f + o)
      else Ok(f)
  }

  /** Some segment before the last names, in the original, a value that is
      not an object, every segment before it naming an object. */
  predicate PassesLeaf(o: map<string, Json>, path: seq<string>)
    decreases |path|
  {
    |path| > 1 && path[0] in o && (!o[path[0]].JObject? || PassesLeaf(o[path[0]].members, path[1..]))
  }

  /** A path fails exactly when it descends through a non-object value of
      the original; a missing segment at any depth ends it without error. */
  lemma {:induction false} ApplyPathFailsExactly(f: map<string, Json>, o: map<string, Json>, path: seq<string>)
    ensures ApplyPath(f, o, path).Err? <==> PassesLeaf(o, path)
    decreases |path|
  {
    if |path| > 1 && path[0] in o && o[path[0]].JObject? {
      ApplyPathFailsExactly(ChildObject(f, path[0]), o[path[0]].members, path[1..]);
    }
  }

  /** The same rule with the failing segment named: the object the segments
      before it reach holds a non-object value under it. */
  lemma {:induction false} PassesLeafAt(o: map<string, Json>, path: seq<string>)
    ensures PassesLeaf(o, path) <==>
      exists i :: 0 <= i < |path| - 1 && ObjectAt(o, path[..i]).Some? &&
        path[i] in ObjectAt(o, path[..i]).value && !ObjectAt(o, path[..i]).value[path[i]].JObject?
    decreases |path|
  {
    if |path| > 1 && path[0] in o && o[path[0]].JObject? {
      var m, rest := o[path[0]].members, path[1..];
      PassesLeafAt(m, rest);
      forall i | 1 <= i < |path|
        ensures ObjectAt(o, path[..i]) == ObjectAt(m, rest[..i - 1]) && path[i] == rest[i - 1]
      {
        assert path[..i][0] == path[0] && path[..i][1..] == rest[..i - 1];
      }
      assert ObjectAt(o, path[..0]) == Some(o);
      if PassesLeaf(o, path) {
        var j :| 0 <= j < |rest| - 1 && ObjectAt(m, rest[..j]).Some? &&
          rest[j] in ObjectAt(m, rest[..j]).value && !ObjectAt(m, rest[..j]).value[rest[j]].JObject?;
        assert ObjectAt(o, path[..j + 1]) == ObjectAt(m, rest[..j]);
      } else {
        forall i | 0 <= i < |path| - 1 && ObjectAt(o, path[..i]).Some? && path[i] in ObjectAt(o, path[..i]).value
          ensures ObjectAt(o, path[..i]).value[path[i]].JObject?
        {
          if i > 0 {
            assert ObjectAt(o, path[..i]) == ObjectAt(m, rest[..i - 1]);
          }
        }
      }
    } else if |path| > 1 && path[0] in o {
      assert ObjectAt(o, path[..0]) == Some(o);
    } else if |path| > 1 {
      forall i | 0 < i < |path| - 1
        ensures ObjectAt(o, path[..i]).None?
      {
        assert path[..i][0] == path[0];
      }
      assert ObjectAt(o, path[..0]) == Some(o);
    }
  }

  /** The filtered object under `key` the descent continues in. */
  function ChildObject(f: map<string, Json>, key: string): map<string, Json> {
    if key in f && f[key].JObject? then f[key].members else map[]
  }

  /** The paths one after the other; the first failure fails the whole. A
      single field is its path (split on `.`); with ApplyFieldsAppend, every
      sequence of fields is its paths in order. */
  function ApplyFields(f: map<string, Json>, o: map<string, Json>, fields: seq<string>): (r: Result<map<string, Json>>)
    ensures r.Ok? ==> r.value.Keys <= f.Keys + o.Keys
    ensures |fields| == 1 ==> r == ApplyPath(f, o, JavaString.Split(fields[0], '.'))
    decreases |fields|
  {
    if |fields| == 0 then Ok(f)
    else
      var step := ApplyPath(f, o, JavaString.Split(fields[0], '.'));
      if step.Err? then Err
      else
        assert |fields| == 1 ==> fields[1..] == [];
        ApplyFields(step.value, o, fields[1..])
  }

  /** The fields `a` then the fields `b`. */
  lemma {:induction false} ApplyFieldsAppend(f: map<string, Json>, o: map<string, Json>, a: seq<string>, b: seq<string>)
    ensures ApplyFields(f, o, a + b) == match ApplyFields(f, o, a) case Err => Err case Ok(g) => ApplyFields(g, o, b)
    decreases |a|
  {
    if |a| == 0 {
      assert a + b == b;
    } else {
      assert (a + b)[0] == a[0] && (a + b)[1..] == a[1..] + b;
      var step := ApplyPath(f, o, JavaString.Split(a[0], '.'));
      if step.Ok? {
        ApplyFieldsAppend(step.value, o, a[1..], b);
      }
    }
  }

  /** Applying a path of an object to that same object changes nothing. */
  lemma {:induction false} ApplyPathSelf(m: map<string, Json>, path: seq<string>)
    ensures ApplyPath(m, m, path).Ok? ==> ApplyPath(m, m, path).value == m
    decreases |path|
  {
    if |path| > 1 && path[0] in m && m[path[0]].JObject? {
      ApplyPathSelf(m[path[0]].members, path[1..]);
    }
  }

  /** A value the filtered object already shares with the original at `p`
      is still there after any further path. */
  lemma {:induction false} ApplyPathKeeps(f: map<string, Json>, o: map<string, Json>, q: seq<string>, p: seq<string>)
    requires ValueAt(o, p).Some? && ValueAt(f, p) == ValueAt(o, p)
    ensures ApplyPath(f, o, q).Ok? ==> ValueAt(ApplyPath(f, o, q).value, p) == ValueAt(o, p)
    decreases |q|
  {
    var r := ApplyPath(f, o, q);
    if r.Ok? && |q| > 1 && q[0] in o && o[q[0]].JObject? && q[0] == p[0] {
      var k := q[0];
      if |p| > 1 {
        ApplyPathKeeps(f[k].members, o[k].members, q[1..], p[1..]);
      } else {
        ApplyPathSelf(o[k].members, q[1..]);
      }
    }
  }

  /** The same over a sequence of fields. */
  lemma {:induction false} ApplyFieldsKeeps(f: map<string, Json>, o: map<string, Json>, fields: seq<string>, p: seq<string>)
    requires ValueAt(o, p).Some? && ValueAt(f, p) == ValueAt(o, p)
    ensures ApplyFields(f, o, fields).Ok? ==> ValueAt(ApplyFields(f, o, fields).value, p) == ValueAt(o, p)
    decreases |fields|
  {
    if |fields| > 0 {
      var step := ApplyPath(f, o, JavaString.Split(fields[0], '.'));
      if step.Ok? {
        ApplyPathKeeps(f, o, JavaString.Split(fields[0], '.'), p);
        ApplyFieldsKeeps(step.value, o, fields[1..], p);
      }
    }
  }

  /** Every field whose dotted path leads to a value of the original has
      that value at the same place in a successful projection. */
  lemma {:induction false} ApplyFieldsCopies(f: map<string, Json>, o: map<string, Json>, fields: seq<string>)
    ensures ApplyFields(f, o, fields).Ok? ==> forall x :: x in fields && ValueAt(o, JavaString.Split(x, '.')).Some? ==>
      ValueAt(ApplyFields(f, o, fields).value, JavaString.Split(x, '.')) == ValueAt(o, JavaString.Split(x, '.'))
    decreases |fields|
  {
    if |fields| > 0 {
      var step := ApplyPath(f, o, JavaString.Split(fields[0], '.'));
      if step.Ok? {
        ApplyFieldsCopies(step.value, o, fields[1..]);
        var p0 := JavaString.Split(fields[0], '.');
        if ValueAt(o, p0).Some? {
          ApplyFieldsKeeps(step.value, o, fields[1..], p0);
        }
        assert forall x :: x in fields ==> x == fields[0] || x in fields[1..];
      }
    }
  }

  /** The dotted path of field `x` starts with the key `k`. */
  predicate HeadIs(x: string, k: string) {
    var p := JavaString.Split(x, '.');
    |p| > 0 && p[0] == k
  }

  /** Field `x` starts with a `*` the original does not hold, which copies
      the whole level. */
  predicate OpensWildcard(o: map<string, Json>, x: string) {
    HeadIs(x, "*") && "*" !in o
  }

  /** Without a level-copying `*`, fields only touch the top-level keys
      their paths start with: any other key is present and valued as it was
      in the filtered object. */
  lemma {:induction false} ApplyFieldsTouchesHeads(f: map<string, Json>, o: map<string, Json>, fields: seq<string>)
    ensures ApplyFields(f, o, fields).Ok? && (forall x :: x in fields ==> !OpensWildcard(o, x)) ==>
      forall k :: (forall x :: x in fields ==> !HeadIs(x, k)) ==>
        (k in ApplyFields(f, o, fields).value <==> k in f) &&
        (k in f ==> ApplyFields(f, o, fields).value[k] == f[k])
    decreases |fields|
  {
    if |fields| > 0 {
      var step := ApplyPath(f, o, JavaString.Split(fields[0], '.'));
      if step.Ok? {
        ApplyFieldsTouchesHeads(step.value, o, fields[1..]);
        assert forall x :: x in fields[1..] ==> x in fields;
        assert fields[0] in fields;
      }
    }
  }

  /** The projection never invents a top-level key, and without a
      level-copying `*` every key it holds is the first segment of some
      field. */
  lemma ProjectionKeysFromOriginal(o: map<string, Json>, fields: seq<string>)
    ensures ApplyFields(map[], o, fields).Ok? ==> ApplyFields(map[], o, fields).value.Keys <= o.Keys
    ensures ApplyFields(map[], o, fields).Ok? && (forall x :: x in fields ==> !OpensWildcard(o, x)) ==>
      forall k :: k in ApplyFields(map[], o, fields).value ==> exists x :: x in fields && HeadIs(x, k)
  {
    ApplyFieldsTouchesHeads(map[], o, fields);
  }

  /** A full path copies the terminal value at the same nesting. */
  lemma TwoSegmentPath(f: map<string, Json>, o: map<string, Json>, a: string, b: string)
    requires a in o && o[a].JObject? && b in o[a].members
    ensures ApplyPath(f, o, [a, b]) == Ok(f[a := JObject(ChildObject(f, a)[b := o[a].members[b]])])
  {
    assert [a, b][1..] == [b];
  }

  /** A missing inner segment abandons the path, but the object created for
      the segments before it stays. */
  lemma MissingSegmentLeavesObject(f: map<string, Json>, o: map<string, Json>, a: string, x: string)
    requires a in o && o[a].JObject? && x !in o[a].members && x != "*" && a !in f
    ensures ApplyPath(f, o, [a, x]) == Ok(f[a := JObject(map[])])
  {
    assert [a, x][1..] == [x];
  }

  /** A `*` that is not a key of the level copies that level and ends the
      path, whatever follows it. */
  lemma WildcardCopiesLevel(f: map<string, Json>, o: map<string, Json>, rest: seq<string>)
    requires "*" !in o
    ensures ApplyPath(f, o, ["*"] + rest) == Ok(f + o)
  {
  }

  /** Descending through an original value that is not an object fails. */
  lemma DescentThroughLeafFails(f: map<string, Json>, o: map<string, Json>, a: string, rest: seq<string>)
    requires a in o && !o[a].JObject? && |rest| > 0
    ensures ApplyPath(f, o, [a] + rest).Err?
  {
  }

  /** The example of the endpoint: `{"a":{"b":1,"c":2},"d":3}` projected on
      `a.b` and `d` is `{"a":{"b":1},"d":3}`. */
  lemma ProjectionExample()
    ensures ApplyFields(map[], map["a" := JObject(map["b" := JNumber(1), "c" := JNumber(2)]), "d" := JNumber(3)], ["a.b", "d"])
      == Ok(map["a" := JObject(map["b" := JNumber(1)]), "d" := JNumber(3)])
  {
    var o := map["a" := JObject(map["b" := JNumber(1), "c" := JNumber(2)]), "d" := JNumber(3)];
    JavaString.SplitTwo("a", "b", '.');
    assert "a.b" == "a" + ['.'] + "b";
    TwoSegmentPath(map[], o, "a", "b");
    var f1 := map["a" := JObject(map["b" := JNumber(1)])];
    assert ApplyPath(map[], o, JavaString.Split("a.b", '.')) == Ok(f1);
    assert JavaString.Split("d", '.') == ["d"];
    assert ["a.b", "d"][1..] == ["d"];
    assert ApplyFields(f1, o, ["d"]) == ApplyFields(f1["d" := JNumber(3)], o, []);
  }

  /** The endpoint's choice: no fields, or a `*` among them, leaves the
      document as it is; otherwise it is projected. */
  function Project(doc: map<string, Json>, fields: seq<string>): (r: Result<map<string, Json>>)
    ensures |fields| == 0 || "*" in fields ==> r == Ok(doc)
    ensures r.Ok? ==> r.value.Keys <= doc.Keys
  {
    if |fields| == 0 || "*" in fields then Ok(doc) else ApplyFields(map[], doc, fields)
  }

  // ---------------------------------------------------------------------
  // filterJsonObject, with the cursors of the source

  /** The object reached from `root` along `at`, if every step is an
      object. */
  function ObjectAt(root: map<string, Json>, at: seq<string>): Option<map<string, Json>>
    decreases |at|
  {
    if |at| == 0 then Some(root)
    else if at[0] in root && root[at[0]].JObject? then ObjectAt(root[at[0]].members, at[1..])
    else None
  }

  /** `root` with the object at `at` replaced by `m`. */
  function PutAt(root: map<string, Json>, at: seq<string>, m: map<string, Json>): map<string, Json>
    requires ObjectAt(root, at).Some?
    decreases |at|
  {
    if |at| == 0 then m
    else root[at[0] := JObject(PutAt(root[at[0]].members, at[1..], m))]
  }

  lemma {:induction false} ObjectAtPut(root: map<string, Json>, at: seq<string>, m: map<string, Json>)
    requires ObjectAt(root, at).Some?
    ensures ObjectAt(PutAt(root, at, m), at) == Some(m)
    decreases |at|
  {
    if |at| > 0 {
      ObjectAtPut(root[at[0]].members, at[1..], m);
    }
  }

  lemma {:induction false} PutAtPut(root: map<string, Json>, at: seq<string>, m1: map<string, Json>, m2: map<string, Json>)
    requires ObjectAt(root, at).Some?
    ensures ObjectAt(PutAt(root, at, m1), at).Some?
    ensures PutAt(PutAt(root, at, m1), at, m2) == PutAt(root, at, m2)
    decreases |at|
  {
    ObjectAtPut(root, at, m1);
    if |at| > 0 {
      PutAtPut(root[at[0]].members, at[1..], m1, m2);
    }
  }

  lemma {:induction false} ObjectAtChild(root: map<string, Json>, at: seq<string>, key: string)
    requires ObjectAt(root, at).Some?
    requires key in ObjectAt(root, at).value && ObjectAt(root, at).value[key].JObject?
    ensures ObjectAt(root, at + [key]) == Some(ObjectAt(root, at).value[key].members)
    decreases |at|
  {
    if |at| == 0 {
      assert [key][1..] == [];
    } else {
      assert (at + [key])[1..] == at[1..] + [key];
      ObjectAtChild(root[at[0]].members, at[1..], key);
    }
  }

  lemma {:induction false} PutAtChild(root: map<string, Json>, at: seq<string>, key: string, c: map<string, Json>)
    requires ObjectAt(root, at).Some?
    requires key in ObjectAt(root, at).value && ObjectAt(root, at).value[key].JObject?
    ensures ObjectAt(root, at + [key]).Some?
    ensures PutAt(root, at + [key], c) == PutAt(root, at, ObjectAt(root, at).value[key := JObject(c)])
    decreases |at|
  {
    ObjectAtChild(root, at, key);
    if |at| == 0 {
      assert [key][1..] == [];
    } else {
      assert (at + [key])[1..] == at[1..] + [key];
      PutAtChild(root[at[0]].members, at[1..], key, c);
    }
  }

  /** `root` is unchanged by putting back what is already at `at`. */
  lemma {:induction false} PutAtSame(root: map<string, Json>, at: seq<string>)
    requires ObjectAt(root, at).Some?
    ensures PutAt(root, at, ObjectAt(root, at).value) == root
    decreases |at|
  {
    if |at| > 0 {
      PutAtSame(root[at[0]].members, at[1..]);
    }
  }

  /** What the whole path yields, given what the rest of it yields at the
      cursor. */
  function Plug(root: map<string, Json>, at: seq<string>, r: Result<map<string, Json>>): Result<map<string, Json>>
    requires ObjectAt(root, at).Some?
  {
    if r.Err? then Err else Ok(PutAt(root, at, r.value))
  }

  /** The wildcard loop: every key of `source` added to `target`, replacing
      what `target` held under it. */
  method CopyAll(target: map<string, Json>, source: map<string, Json>) returns (r: map<string, Json>)
    ensures r == target + source
  {
    r := target;
    var remaining := source.Keys;
    while remaining != {}
      invariant remaining <= source.Keys
      invariant r.Keys == target.Keys + (source.Keys - remaining)
      invariant forall k :: k in r ==> r[k] == if k in source && k !in remaining then source[k] else target[k]
      decreases remaining
    {
      var k :| k in remaining;
      r := r[k := source[k]];
      remaining := remaining - {k};
    }
  }

  /** The descent step: after the filtered cursor's object gets `child`
      under `key`, the deeper cursor reaches `child`, and plugging there is
      plugging the updated object at the old cursor. */
  lemma DescendReaches(root: map<string, Json>, at: seq<string>, node': map<string, Json>, key: string, child: map<string, Json>)
    requires ObjectAt(root, at).Some? && key in node' && node'[key] == JObject(child)
    ensures ObjectAt(PutAt(root, at, node'), at + [key]) == Some(child)
  {
    ObjectAtPut(root, at, node');
    ObjectAtChild(PutAt(root, at, node'), at, key);
  }

  lemma DescendPlugs(root: map<string, Json>, at: seq<string>, node': map<string, Json>, key: string, child: map<string, Json>,
                     c: map<string, Json>)
    requires ObjectAt(root, at).Some? && key in node' && node'[key] == JObject(child)
    ensures ObjectAt(PutAt(root, at, node'), at + [key]).Some?
    ensures PutAt(PutAt(root, at, node'), at + [key], c) == PutAt(root, at, node'[key := JObject(c)])
  {
    var root' := PutAt(root, at, node');
    ObjectAtPut(root, at, node');
    PutAtChild(root', at, key, c);
    PutAtPut(root, at, node', node'[key := JObject(c)]);
  }

  /** The cursor state of the inner loop: `goal` is what the whole path
      yields, and it is the rest of the path applied at the cursor, plugged
      back into the filtered object. */
  ghost predicate Cursor(goal: Result<map<string, Json>>, root: map<string, Json>, at: seq<string>,
                         current: map<string, Json>, rest: seq<string>) {
    ObjectAt(root, at).Some? && goal == Plug(root, at, ApplyPath(ObjectAt(root, at).value, current, rest))
  }

  lemma CursorStart(filtered: map<string, Json>, original: map<string, Json>, path: seq<string>)
    ensures Cursor(ApplyPath(filtered, original, path), filtered, [], original, path)
  {
  }

  lemma CursorDone(goal: Result<map<string, Json>>, root: map<string, Json>, at: seq<string>, current: map<string, Json>)
    requires Cursor(goal, root, at, current, [])
    ensures goal == Ok(root)
  {
    PutAtSame(root, at);
  }

  lemma CursorLast(goal: Result<map<string, Json>>, root: map<string, Json>, at: seq<string>,
                   current: map<string, Json>, rest: seq<string>)
    requires Cursor(goal, root, at, current, rest) && |rest| == 1 && rest[0] in current
    ensures goal == Ok(PutAt(root, at, ObjectAt(root, at).value[rest[0] := current[rest[0]]]))
  {
  }

  lemma CursorLeaf(goal: Result<map<string, Json>>, root: map<string, Json>, at: seq<string>,
                   current: map<string, Json>, rest: seq<string>)
    requires Cursor(goal, root, at, current, rest) && |rest| > 1 && rest[0] in current && !current[rest[0]].JObject?
    ensures goal == Err
  {
  }

  lemma CursorDescend(goal: Result<map<string, Json>>, root: map<string, Json>, at: seq<string>,
                      current: map<string, Json>, rest: seq<string>, node: map<string, Json>)
    requires Cursor(goal, root, at, current, rest) && |rest| > 1 && rest[0] in current && current[rest[0]].JObject?
    requires node == ObjectAt(root, at).value
    ensures Cursor(goal, PutAt(root, at, node[rest[0] := JObject(ChildObject(node, rest[0]))]), at + [rest[0]],
                   current[rest[0]].members, rest[1..])
  {
    var key := rest[0];
    var child := ChildObject(node, key);
    var node' := node[key := JObject(child)];
    DescendReaches(root, at, node', key, child);
    var inner := ApplyPath(child, current[key].members, rest[1..]);
    DescendUnfold(node, current, rest);
    if inner.Ok? {
      DescendPlugs(root, at, node', key, child, inner.value);
      UpdateTwice(node, key, JObject(child), JObject(inner.value));
    }
  }

  /** A second update of the same key replaces the first. */
  lemma UpdateTwice(m: map<string, Json>, k: string, a: Json, b: Json)
    ensures m[k := a][k := b] == m[k := b]
  {
  }

  lemma DescendUnfold(node: map<string, Json>, current: map<string, Json>, rest: seq<string>)
    requires |rest| > 1 && rest[0] in current && current[rest[0]].JObject?
    ensures var inner := ApplyPath(ChildObject(node, rest[0]), current[rest[0]].members, rest[1..]);
      ApplyPath(node, current, rest) == if inner.Err? then Err else Ok(node[rest[0] := JObject(inner.value)])
  {
  }

  lemma CursorWildcard(goal: Result<map<string, Json>>, root: map<string, Json>, at: seq<string>,
                       current: map<string, Json>, rest: seq<string>)
    requires Cursor(goal, root, at, current, rest) && |rest| > 0 && rest[0] !in current && rest[0] == "*"
    ensures goal == Ok(PutAt(root, at, ObjectAt(root, at).value + current))
  {
  }

  lemma CursorMissing(goal: Result<map<string, Json>>, root: map<string, Json>, at: seq<string>,
                      current: map<string, Json>, rest: seq<string>)
    requires Cursor(goal, root, at, current, rest) && |rest| > 0 && rest[0] !in current && rest[0] != "*"
    ensures goal == Ok(root)
  {
    PutAtSame(root, at);
  }

  /** The inner loop of `filterJsonObject`: one path walked with a cursor
      `at` into the filtered object and a cursor `current` into the
      original one; `add` on the filtered cursor replaces the object at
      `at`. */
  method ApplyPathInPlace(filtered: map<string, Json>, original: map<string, Json>, path: seq<string>)
    returns (r: Result<map<string, Json>>)
    ensures r == ApplyPath(filtered, original, path)
  {
    ghost var goal := ApplyPath(filtered, original, path);
    var root := filtered;
    var current := original;
    var at: seq<string> := [];
    CursorStart(filtered, original, path);
    var i := 0;
    while i < |path|
      invariant 0 <= i <= |path|
      invariant Cursor(goal, root, at, current, path[i..])
      decreases |path| - i
    {
      var key := path[i];
      var node := ObjectAt(root, at).value;
      assert path[i..][0] == key && path[i..][1..] == path[i + 1..];
      if key in current {
        if i == |path| - 1 {
          CursorLast(goal, root, at, current, path[i..]);
          root := PutAt(root, at, node[key := current[key]]);
          return Ok(root);
        }
        if !current[key].JObject? {
          CursorLeaf(goal, root, at, current, path[i..]);
          return Err;
        }
        CursorDescend(goal, root, at, current, path[i..], node);
        root := PutAt(root, at, node[key := JObject(ChildObject(node, key))]);
        current := current[key].members;
        at := at + [key];
        i := i + 1;
      } else if key == "*" {
        CursorWildcard(goal, root, at, current, path[i..]);
        var merged := CopyAll(node, current);
        root := PutAt(root, at, merged);
        return Ok(root);
      } else {
        CursorMissing(goal, root, at, current, path[i..]);
        return Ok(root);
      }
    }
    assert path[i..] == [];
    CursorDone(goal, root, at, current);
    r := Ok(root);
  }

  /** `filterJsonObject`: the paths of the fields applied one after the
      other to an initially empty object. */
  method FilterJsonObject(original: map<string, Json>, fields: seq<string>) returns (r: Result<map<string, Json>>)
    ensures r == ApplyFields(map[], original, fields)
  {
    var filtered: map<string, Json> := map[];
    for f := 0 to |fields|
      invariant ApplyFields(map[], original, fields) == ApplyFields(filtered, original, fields[f..])
    {
      assert fields[f..][0] == fields[f] && fields[f..][1..] == fields[f + 1..];
      var step := ApplyPathInPlace(filtered, original, JavaString.Split(fields[f], '.'));
      if step.Err? {
        return Err;
      }
      filtered := step.value;
    }
    assert fields[|fields|..] == [];
    r := Ok(filtered);
  }
}
