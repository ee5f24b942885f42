/** The `Path` value type of path.py: a tuple of path components built
    from a string, a sequence of components or another `Path`. The
    platform separator `os.sep` is a parameter `osSep` of every operation
    that uses it; the separator given to the constructor is `sep`. */
module Paths {
  import opened Results
  import opened Text

  datatype Path = Path(parts: seq<string>)

  /** The values `Path(...)` accepts. */
  datatype Value = FromStr(s: string) | FromSeq(items: seq<string>) | FromPath(p: Path)

  /** The index or bound of a slice: absent, an integer, or a `Path`. */
  datatype Bound = NoBound | At(i: int) | ByPath(q: Path)

  /** `value[:-1]` applied once when the last of several components is empty:
      a trailing separator never leaves a trailing empty component. */
  function DropTrailing(ps: seq<string>): seq<string> {
    if |ps| > 1 && ps[|ps| - 1] == "" then ps[..|ps| - 1] else ps
  }

  /** The separator a string is split on: `sep`, or '/' when the string
      holds '/' but not `sep`. */
  function SplitSep(s: string, sep: char): (c: char)
    ensures c == sep || c == '/'
    ensures c in s || c == sep
    ensures sep in s ==> c == sep
    ensures sep !in s && '/' in s ==> c == '/'
  {
    if sep !in s && '/' in s then '/' else sep
  }

  /** `Path(s, sep)` for a string. */
  function ParseString(s: string, sep: char): (p: Path)
    ensures s == "" ==> p.parts == []
    ensures s != "" ==> |p.parts| >= 1
    ensures forall i :: 0 <= i < |p.parts| ==> SplitSep(s, sep) !in p.parts[i]
    ensures s != "" && s[|s| - 1] == SplitSep(s, sep) ==> Join(p.parts, SplitSep(s, sep)) + [SplitSep(s, sep)] == s
    ensures s != "" && s[|s| - 1] != SplitSep(s, sep) ==> Join(p.parts, SplitSep(s, sep)) == s
  {
    if s == "" then Path([])
    else
      var c := SplitSep(s, sep);
      var pieces := Split(s, c);
      JoinSplit(s, c);
      SplitLast(s, c);
      if |pieces| > 1 && pieces[|pieces| - 1] == "" then
        JoinDropLast(pieces, c);
        Path(pieces[..|pieces| - 1])
      else
        Path(pieces)
  }

  /** Joining pieces whose last is empty is joining the others and adding
      the separator. */
  lemma {:induction false} JoinDropLast(ps: seq<string>, c: char)
    requires |ps| > 1 && ps[|ps| - 1] == ""
    ensures Join(ps, c) == Join(ps[..|ps| - 1], c) + [c]
    decreases |ps|
  {
    if |ps| == 2 {
      assert ps[1..] == [""];
      assert ps[..1] == [ps[0]];
    } else {
      JoinDropLast(ps[1..], c);
      assert ps[1..][..|ps[1..]| - 1] == ps[..|ps| - 1][1..];
    }
  }

  predicate HasSepComponent(items: seq<string>, sep: char) {
    exists i :: 0 <= i < |items| && sep in items[i]
  }

  /** `Path(items, sep)` for a sequence of components: one holding the
      separator makes the whole sequence rejoin and reparse as a string. */
  function ParseSeq(items: seq<string>, sep: char): (p: Path)
    ensures !HasSepComponent(items, sep) ==> p.parts == DropTrailing(items)
    ensures HasSepComponent(items, sep) ==> p == ParseString(Join(items, sep), sep)
  {
    if HasSepComponent(items, sep) then ParseString(Join(items, sep), sep)
    else Path(DropTrailing(items))
  }

  /** `Path(value, sep)`: a `Path` is returned as it is. */
  function Make(v: Value, sep: char): (p: Path)
    ensures v.FromPath? ==> p == v.p
  {
    match v
    case FromStr(s) => ParseString(s, sep)
    case FromSeq(items) => ParseSeq(items, sep)
    case FromPath(q) => q
  }

  /** A normal path for separator `sep`: no component holds `sep` and no
      trailing empty component follows others. The constructor builds most
      but not all of these: a run of two or more trailing separators
      leaves one trailing empty component (see TrailingPairNotNormal). */
  predicate Normal(p: Path, sep: char) {
    && (forall i :: 0 <= i < |p.parts| ==> sep !in p.parts[i])
    && DropTrailing(p.parts) == p.parts
  }

  /** Rebuilding a normal path from its own components gives it back. */
  lemma ParseSeqNormal(p: Path, sep: char)
    requires Normal(p, sep)
    ensures ParseSeq(p.parts, sep) == p
  {
  }

  /** Only one trailing empty component goes: leading and interior empty
      components, and all but the last of several trailing ones, stay. */
  lemma DropTrailingOnce(ps: seq<string>)
    ensures DropTrailing(ps) == ps || (|ps| > 1 && DropTrailing(ps) + [""] == ps)
    ensures |DropTrailing(ps)| >= |ps| - 1
    ensures DropTrailing(ps) == ps[..|DropTrailing(ps)|]
  {
  }

  // ---- concatenation ----

  /** `other` as the right operand of `+`: parsed, then stripped of a
      leading empty root marker. */
  function RightOperand(other: Value, osSep: char): (ps: seq<string>)
    ensures var q := Make(other, osSep).parts;
      |q| > 0 && q[0] == "" ==> ps == ParseSeq(q[1..], osSep).parts
    ensures var q := Make(other, osSep).parts;
      !(|q| > 0 && q[0] == "") ==> ps == q
  {
    var q := Make(other, osSep).parts;
    // `other[1:]` goes through `__getslice__`, which builds a new `Path`
    if |q| > 0 && q[0] == "" then ParseSeq(q[1..], osSep).parts else q
  }

  /** `p + other`. */
  function Add(p: Path, other: Value, osSep: char): (r: Path)
    ensures var b := RightOperand(other, osSep);
      !HasSepComponent(p.parts + b, osSep) ==> r.parts == DropTrailing(p.parts + b)
  {
    ParseSeq(p.parts + RightOperand(other, osSep), osSep)
  }

  /** `other + p` with `other` not a `Path`. */
  function RAdd(other: Value, p: Path, osSep: char): Path {
    Add(Make(other, osSep), FromPath(p), osSep)
  }

  /** Adding a normal path whose first component is the root marker
      appends its other components: `Path('/foo') + Path('/bar')` is '/foo/bar'. */
  lemma AddAbsolute(p: Path, q: Path, osSep: char)
    requires Normal(p, osSep) && Normal(q, osSep)
    requires |q.parts| >= 2 && q.parts[0] == ""
    ensures Add(p, FromPath(q), osSep).parts == p.parts + q.parts[1..]
  {
    var b := q.parts[1..];
    assert b[|b| - 1] == q.parts[|q.parts| - 1];
    assert !HasSepComponent(b, osSep) by {
      forall i | 0 <= i < |b|
        ensures osSep !in b[i]
      {
        assert b[i] == q.parts[i + 1];
      }
    }
    assert RightOperand(FromPath(q), osSep) == b;
    var all := p.parts + b;
    assert all[|all| - 1] == b[|b| - 1];
    assert !HasSepComponent(all, osSep) by {
      forall i | 0 <= i < |all|
        ensures osSep !in all[i]
      {
        if i >= |p.parts| {
          assert all[i] == q.parts[i - |p.parts| + 1];
        }
      }
    }
  }

  /** Adding a normal relative path concatenates the components. */
  lemma AddRelative(p: Path, q: Path, osSep: char)
    requires Normal(p, osSep) && Normal(q, osSep)
    requires |q.parts| >= 1 && q.parts[0] != ""
    ensures Add(p, FromPath(q), osSep).parts == p.parts + q.parts
  {
    var all := p.parts + q.parts;
    assert all[|all| - 1] == q.parts[|q.parts| - 1];
    assert !HasSepComponent(all, osSep) by {
      forall i | 0 <= i < |all|
        ensures osSep !in all[i]
      {
        if i >= |p.parts| {
          assert all[i] == q.parts[i - |p.parts|];
        }
      }
    }
  }

  /** `other + p` for a value whose parse is normal, and a normal relative
      `p`: the components of `other` followed by those of `p`. */
  lemma RAddRelative(other: Value, p: Path, osSep: char)
    requires Normal(Make(other, osSep), osSep) && Normal(p, osSep)
    requires |p.parts| >= 1 && p.parts[0] != ""
    ensures RAdd(other, p, osSep).parts == Make(other, osSep).parts + p.parts
  {
    AddRelative(Make(other, osSep), p, osSep);
  }

  /** The right operand is reparsed after its root marker is dropped, so a
      run of trailing separators loses one more empty component:
      `Path('x') + '/a///'` is ('x', 'a'), not ('x', 'a', ''). */
  lemma AddReparsesTail(x: string, a: string, c: char)
    requires c !in x && c !in a && a != ""
    ensures ParseString([c] + a + [c, c, c], c).parts == ["", a, "", ""]
    ensures Add(Path([x]), FromStr([c] + a + [c, c, c]), c).parts == [x, a]
  {
    var s := [c] + a + [c, c, c];
    assert s[0] == c;
    assert SplitSep(s, c) == c;
    TrailingRunSplit(a, c);
    var pieces := ["", a, "", "", ""];
    var q := ["", a, "", ""];
    assert pieces[..|pieces| - 1] == q;
    assert ParseString(s, c).parts == q;
    assert q[1..] == [a, "", ""];
    assert !HasSepComponent(q[1..], c);
    assert ParseSeq(q[1..], c).parts == [a, ""];
    assert RightOperand(FromStr([c] + a + [c, c, c]), c) == [a, ""];
    var all := [x] + [a, ""];
    assert !HasSepComponent(all, c);
  }

  /** `Path(a + sep + sep)` keeps one trailing empty component, so it is
      not normal: it differs from its own rendering, which parses to
      `(a,)`, and `Path(a + sep + sep + b)` is not `in` it although its
      components are a prefix of that path's. */
  lemma TrailingPairNotNormal(a: string, b: string, c: char)
    requires c !in a && c !in b && a != "" && b != ""
    ensures ParseString(a + [c, c], c).parts == [a, ""]
    ensures !Normal(ParseString(a + [c, c], c), c)
    ensures !Equals(ParseString(a + [c, c], c), FromStr(Render(ParseString(a + [c, c], c), c)), c)
    ensures ParseString(a + [c, c] + b, c).parts == [a, "", b]
    ensures !ContainsPath(ParseString(a + [c, c], c), ParseString(a + [c, c] + b, c), c)
  {
    var p := ParseString(a + [c, c], c);
    TrailingPairSplit(a, b, c);
    assert p.parts == [a, ""];
    assert DropTrailing(p.parts) == [a];
    var r := Render(p, c);
    assert r == a + [c];
    SplitPrefixPiece(a, c, []);
    assert a + [c] + [] == r;
    assert ParseString(r, c).parts == [a];
    var item := ParseString(a + [c, c] + b, c);
    assert item.parts == [a, "", b];
    assert item.parts[0..2] == [a, ""];
    assert HasSepComponent([a, ""], c) == false;
    assert Slice(item, NoBound, At(2), c).parts == [a];
  }

  lemma TrailingPairSplit(a: string, b: string, c: char)
    requires c !in a && c !in b
    ensures Split(a + [c, c], c) == [a, "", ""]
    ensures Split(a + [c, c] + b, c) == [a, "", b]
  {
    TwoSepsSplit(a, c, []);
    assert a + [c, c] + [] == a + [c, c];
    TwoSepsSplit(a, c, b);
    SplitWithout(b, c);
  }

  lemma TwoSepsSplit(a: string, c: char, t: string)
    requires c !in a
    ensures Split(a + [c, c] + t, c) == [a, ""] + Split(t, c)
  {
    SplitPrefixPiece([], c, t);
    assert [] + [c] + t == [c] + t;
    SplitPrefixPiece(a, c, [c] + t);
    assert a + [c] + ([c] + t) == a + [c, c] + t;
  }

  lemma TrailingRunSplit(a: string, c: char)
    requires c !in a
    ensures Split([c] + a + [c, c, c], c) == ["", a, "", "", ""]
  {
    SplitPrefixPiece([], c, []);
    assert [] + [c] + [] == [c];
    SplitPrefixPiece([], c, [c]);
    assert [] + [c] + [c] == [c, c];
    SplitPrefixPiece(a, c, [c, c]);
    assert a + [c] + [c, c] == a + [c, c, c];
    SplitPrefixPiece([], c, a + [c, c, c]);
    assert [] + [c] + (a + [c, c, c]) == [c] + a + [c, c, c];
  }

  // ---- slicing ----

  /** Python's clamping of a slice index into [0, n]. */
  function ClampIndex(i: int, n: nat): (k: nat)
    ensures k <= n
    ensures 0 <= i <= n ==> k == i
    ensures i < 0 && 0 <= i + n ==> k == n + i
    ensures i > n ==> k == n
    ensures i + n < 0 ==> k == 0
  {
    if i < 0 then (if i + n < 0 then 0 else i + n) else if i > n then n else i
  }

  /** The number of leading components two sequences share. */
  function CommonPrefix(a: seq<string>, b: seq<string>): (k: nat)
    ensures k <= |a| && k <= |b|
    ensures a[..k] == b[..k]
    ensures k < |a| && k < |b| ==> a[k] != b[k]
  {
    if |a| == 0 || |b| == 0 || a[0] != b[0] then 0
    else
      var k := 1 + CommonPrefix(a[1..], b[1..]);
      assert a[..k] == [a[0]] + a[1..][..k - 1];
      assert b[..k] == [b[0]] + b[1..][..k - 1];
      k
  }

  /** The number of trailing components two sequences share. */
  function CommonSuffix(a: seq<string>, b: seq<string>): (k: nat)
    ensures k <= |a| && k <= |b|
  {
    if |a| == 0 || |b| == 0 || a[|a| - 1] != b[|b| - 1] then 0
    else 1 + CommonSuffix(a[..|a| - 1], b[..|b| - 1])
  }

  /** `CommonSuffix` counts shared trailing components and stops at the
      first pair that differs. */
  lemma CommonSuffixSpec(a: seq<string>, b: seq<string>)
    ensures var k := CommonSuffix(a, b);
      && a[|a| - k..] == b[|b| - k..]
      && (k < |a| && k < |b| ==> a[|a| - k - 1] != b[|b| - k - 1])
  {
    CommonSuffixShared(a, b);
    CommonSuffixStops(a, b);
  }

  lemma {:induction false} CommonSuffixShared(a: seq<string>, b: seq<string>)
    ensures var k := CommonSuffix(a, b); a[|a| - k..] == b[|b| - k..]
  {
    if |a| > 0 && |b| > 0 && a[|a| - 1] == b[|b| - 1] {
      var a1, b1 := a[..|a| - 1], b[..|b| - 1];
      CommonSuffixShared(a1, b1);
      var k1 := CommonSuffix(a1, b1);
      var i, j := |a1| - k1, |b1| - k1;
      SuffixOfInit(a, i);
      SuffixOfInit(b, j);
      assert a[i..] == b[j..];
    }
  }

  lemma {:induction false} CommonSuffixStops(a: seq<string>, b: seq<string>)
    ensures var k := CommonSuffix(a, b);
      k < |a| && k < |b| ==> a[|a| - k - 1] != b[|b| - k - 1]
  {
    if |a| > 0 && |b| > 0 && a[|a| - 1] == b[|b| - 1] {
      var a1, b1 := a[..|a| - 1], b[..|b| - 1];
      CommonSuffixStops(a1, b1);
      var k1 := CommonSuffix(a1, b1);
      if k1 + 1 < |a| && k1 + 1 < |b| {
        assert a[|a| - k1 - 2] == a1[|a1| - k1 - 1];
        assert b[|b| - k1 - 2] == b1[|b1| - k1 - 1];
      }
    }
  }

  lemma SuffixOfInit(a: seq<string>, j: int)
    requires 0 <= j < |a|
    ensures a[j..] == a[..|a| - 1][j..] + [a[|a| - 1]]
  {
  }

  /** The start index a slice bound stands for: a `Path` start skips the
      common prefix. */
  function StartIndex(p: Path, start: Bound): (k: nat)
    ensures k <= |p.parts|
  {
    match start
    case NoBound => 0
    case At(i) => ClampIndex(i, |p.parts|)
    case ByPath(q) => CommonPrefix(p.parts, q.parts)
  }

  /** The stop index a slice bound stands for: a `Path` stop cuts the
      common suffix, or nothing when there is none. */
  function StopIndex(p: Path, stop: Bound): (k: nat)
    ensures k <= |p.parts|
  {
    match stop
    case NoBound => |p.parts|
    case At(i) => ClampIndex(i, |p.parts|)
    case ByPath(q) =>
      var m := CommonSuffix(p.parts, q.parts);
      if m > 0 then ClampIndex(-(m as int), |p.parts|) else |p.parts|
  }

  /** `p[start:stop]` (step 1), rebuilt as a `Path`. */
  function Slice(p: Path, start: Bound, stop: Bound, osSep: char): (r: Path)
    ensures var s, e := StartIndex(p, start), StopIndex(p, stop);
      Normal(p, osSep) ==> r.parts == DropTrailing(if s < e then p.parts[s..e] else [])
  {
    var s, e := StartIndex(p, start), StopIndex(p, stop);
    var ps := if s < e then p.parts[s..e] else [];
    assert Normal(p, osSep) ==> !HasSepComponent(ps, osSep) by {
      if Normal(p, osSep) && s < e {
        forall i | 0 <= i < |ps|
          ensures osSep !in ps[i]
        {
          assert ps[i] == p.parts[s + i];
        }
      }
    }
    ParseSeq(ps, osSep)
  }

  /** A `Path` start removes exactly the longest common prefix, and the rest
      of a normal path is left as it is. */
  lemma SliceFromPath(p: Path, q: Path, osSep: char)
    requires Normal(p, osSep)
    ensures var k := CommonPrefix(p.parts, q.parts);
      && p.parts[..k] == q.parts[..k]
      && Slice(p, ByPath(q), NoBound, osSep).parts == p.parts[k..]
  {
    var k := CommonPrefix(p.parts, q.parts);
    var n := |p.parts|;
    if k < n {
      var ps := p.parts[k..n];
      assert ps == p.parts[k..];
      if |ps| > 1 {
        assert ps[|ps| - 1] == p.parts[n - 1];
      }
    }
  }

  /** A `Path` stop removes exactly the longest common suffix, and nothing
      when the last components differ. */
  lemma SliceToPath(p: Path, q: Path, osSep: char)
    requires Normal(p, osSep)
    ensures var m := CommonSuffix(p.parts, q.parts);
      && p.parts[|p.parts| - m..] == q.parts[|q.parts| - m..]
      && Slice(p, NoBound, ByPath(q), osSep).parts == DropTrailing(p.parts[..|p.parts| - m])
  {
    var m := CommonSuffix(p.parts, q.parts);
    CommonSuffixSpec(p.parts, q.parts);
    var n := |p.parts|;
    if m == 0 {
      assert p.parts[0..n] == p.parts[..n - m];
    } else if n - m > 0 {
      assert p.parts[0..n - m] == p.parts[..n - m];
    }
  }

  /** `p[i]`, with Python's negative indices. */
  function Index(p: Path, i: int): (r: Option<string>)
    ensures r.Some? <==> -|p.parts| <= i < |p.parts|
    ensures 0 <= i < |p.parts| ==> r == Some(p.parts[i])
    ensures -|p.parts| <= i < 0 ==> r == Some(p.parts[|p.parts| + i])
  {
    if 0 <= i < |p.parts| then Some(p.parts[i])
    else if -|p.parts| <= i < 0 then Some(p.parts[|p.parts| + i])
    else None
  }

  // ---- containment and equality ----

  /** `item in p` for a `Path` item, `item[:len(p)] == p`: for normal
      paths, exactly when `p` is a prefix of `item`. */
  function ContainsPath(p: Path, item: Path, osSep: char): (b: bool)
    ensures Normal(p, osSep) && Normal(item, osSep) ==> (b <==> p.parts <= item.parts)
  {
    var b := Slice(item, NoBound, At(|p.parts|), osSep) == p;
    assert Normal(p, osSep) && Normal(item, osSep) ==> (b <==> p.parts <= item.parts) by {
      if Normal(p, osSep) && Normal(item, osSep) {
        HeadIsPrefix(p, item, osSep);
      }
    }
    b
  }

  /** The head of `item` as long as `p` equals `p` exactly when `p` is a
      prefix of `item`. */
  lemma HeadIsPrefix(p: Path, item: Path, osSep: char)
    requires Normal(p, osSep) && Normal(item, osSep)
    ensures Slice(item, NoBound, At(|p.parts|), osSep) == p <==> p.parts <= item.parts
  {
    var n := |p.parts|;
    var m := |item.parts|;
    var e := StopIndex(item, At(n));
    var ps := if 0 < e then item.parts[0..e] else [];
    assert ps == item.parts[..e];
    var r := Slice(item, NoBound, At(n), osSep);
    assert r.parts == DropTrailing(ps);
    if p.parts <= item.parts {
      assert e == n;
      if n > 1 && n < m {
        assert ps[n - 1] == p.parts[n - 1];
      }
    }
    if r == p {
      if e < m {
        DropTrailingOnce(ps);
        assert |r.parts| <= e;
      }
      assert p.parts == item.parts[..|p.parts|];
    }
  }

  /** `x in p` for a string `x`: component membership. */
  function ContainsComponent(p: Path, x: string): (b: bool)
    ensures b <==> exists i :: 0 <= i < |p.parts| && p.parts[i] == x
  {
    x in p.parts
  }

  /** `p == other`: tuple equality with `Path(other)`, so a `Path` equals
      the empty string exactly when it has no components, and a sequence
      free of the separator up to one trailing empty component. */
  function Equals(p: Path, other: Value, osSep: char): (b: bool)
    ensures other.FromPath? ==> (b <==> p.parts == other.p.parts)
    ensures other == FromStr("") ==> (b <==> p.parts == [])
    ensures other.FromSeq? && !HasSepComponent(other.items, osSep) ==>
      (b <==> p.parts == DropTrailing(other.items))
  {
    p == Make(other, osSep)
  }

  /** `p != other` is the negation of `p == other`. */
  function NotEquals(p: Path, other: Value, osSep: char): bool {
    !Equals(p, other, osSep)
  }

  /** `p != other` compares components with the parse of `other`: a normal
      path differs from its own rendering only when it is a lone drive or
      a component holds '/', and from a separator-free sequence exactly
      when the components differ after one trailing empty one is dropped. */
  lemma NotEqualsParsed(p: Path, items: seq<string>, osSep: char)
    requires Normal(p, osSep) && !IsDrive(p)
    requires forall i :: 0 <= i < |p.parts| ==> '/' !in p.parts[i]
    requires !HasSepComponent(items, osSep)
    ensures !NotEquals(p, FromStr(Render(p, osSep)), osSep)
    ensures NotEquals(p, FromSeq(items), osSep) <==> p.parts != DropTrailing(items)
  {
    RenderParse(p, osSep);
  }

  // ---- rendering ----

  predicate IsDrive(p: Path) {
    |p.parts| == 1 && |p.parts[0]| == 2 && p.parts[0][1] == ':'
  }

  /** `unicode(p)`: a lone drive component gets a trailing backslash, a lone
      empty component is the root '/', anything else is joined with `os.sep`. */
  function Render(p: Path, osSep: char): (s: string)
    ensures IsDrive(p) ==> s == p.parts[0] + "\\"
    ensures p.parts == [""] ==> s == "/"
    ensures !IsDrive(p) && p.parts != [""] ==> s == Join(p.parts, osSep)
  {
    if |p.parts| == 1 then
      var first := p.parts[0];
      if |first| == 2 && first[1] == ':' then first + "\\"
      else if |first| == 0 then "/"
      else Join(p.parts, osSep)
    else Join(p.parts, osSep)
  }

  /** Rendering a normal path and parsing the text back with the same
      separator gives the path back, provided no component holds '/' and
      the path is not a lone drive. */
  lemma RenderParse(p: Path, osSep: char)
    requires Normal(p, osSep) && !IsDrive(p)
    requires forall i :: 0 <= i < |p.parts| ==> '/' !in p.parts[i]
    ensures ParseString(Render(p, osSep), osSep) == p
    ensures Equals(p, FromStr(Render(p, osSep)), osSep)
  {
    var s := Render(p, osSep);
    if p.parts == [] {
    } else if p.parts == [""] {
      assert s == "/";
      assert Split("/", '/') == [""] + Split("", '/');
    } else if |p.parts| == 1 {
      SplitWithout(p.parts[0], osSep);
      assert s == p.parts[0];
      assert SplitSep(s, osSep) == osSep;
    } else {
      JoinContainsSep(p.parts, osSep);
      SplitJoin(p.parts, osSep);
      assert SplitSep(s, osSep) == osSep;
    }
  }

  /** The drive case round-trips when the separator is the backslash. */
  lemma RenderParseDrive(p: Path)
    requires IsDrive(p) && Normal(p, '\\')
    ensures ParseString(Render(p, '\\'), '\\') == p
  {
    var d := p.parts[0];
    var s := d + "\\";
    assert s == d + ['\\'] + "";
    SplitPrefixPiece(d, '\\', "");
  }
}
