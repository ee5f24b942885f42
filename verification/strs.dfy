/** String helpers from str.py: escaping, file extensions, clock-style
    time formatting and multi-pattern replacement. */
module Strs {
  import opened Results
  import opened Text

  // ---- escaping ----

  /** `escape`: every character of `s` found in `special` is preceded by `with`. */
  function Escape(s: string, special: string, with: string): (r: string)
    ensures |r| >= |s|
    ensures (forall i :: 0 <= i < |s| ==> s[i] !in special) ==> r == s
  {
    if |s| == 0 then ""
    else if s[0] in special then with + [s[0]] + Escape(s[1..], special, with)
    else [s[0]] + Escape(s[1..], special, with)
  }

  /** Escaping distributes over concatenation. */
  lemma {:induction false} EscapeAppend(a: string, b: string, special: string, with: string)
    ensures Escape(a + b, special, with) == Escape(a, special, with) + Escape(b, special, with)
    decreases |a|
  {
    if |a| > 0 {
      var ab := a + b;
      assert ab[0] == a[0] && ab[1..] == a[1..] + b;
      EscapeAppend(a[1..], b, special, with);
      EscapeStep(ab, special, with);
      EscapeStep(a, special, with);
      var head := EscapeHead(a[0], special, with);
      assert Escape(ab, special, with) == head + (Escape(a[1..], special, with) + Escape(b, special, with));
    } else {
      assert a + b == b;
    }
  }

  /** What `escape` writes for one character. */
  function EscapeHead(c: char, special: string, with: string): string {
    if c in special then with + [c] else [c]
  }

  lemma EscapeStep(s: string, special: string, with: string)
    requires |s| > 0
    ensures Escape(s, special, with) == EscapeHead(s[0], special, with) + Escape(s[1..], special, with)
  {
  }

  /** A single character is escaped exactly when it is special; with
      `EscapeAppend` this determines the escape of any string. */
  lemma EscapeChar(c: char, special: string, with: string)
    ensures c in special ==> Escape([c], special, with) == with + [c]
    ensures c !in special ==> Escape([c], special, with) == [c]
  {
    assert [c][1..] == [];
  }

  /** The inverse of escaping with a one-character escape `e`: every `e`
      drops and keeps the character after it. */
  function Unescape(t: string, e: char): (r: string)
    ensures |r| <= |t|
  {
    if |t| == 0 then ""
    else if t[0] == e && |t| >= 2 then [t[1]] + Unescape(t[2..], e)
    else [t[0]] + Unescape(t[1..], e)
  }

  /** When the escape character is itself escaped, unescaping restores the
      original string. */
  lemma {:induction false} EscapeRoundTrip(s: string, special: string, e: char)
    requires e in special
    ensures Unescape(Escape(s, special, [e]), e) == s
  {
    if |s| > 0 {
      var rest := Escape(s[1..], special, [e]);
      EscapeRoundTrip(s[1..], special, e);
      EscapeStep(s, special, [e]);
      var t := Escape(s, special, [e]);
      if s[0] in special {
        assert t == [e, s[0]] + rest;
        assert t[2..] == rest;
        assert Unescape(t, e) == [s[0]] + Unescape(rest, e);
      } else {
        assert t == [s[0]] + rest;
        assert t[1..] == rest;
        assert Unescape(t, e) == [s[0]] + Unescape(rest, e);
      }
      assert [s[0]] + s[1..] == s;
    }
  }

  /** The regular-expression metacharacters `escape_re` escapes. */
  const ReSpecials: string := "()[]\\*.|+?^"

  /** `escape_re`. */
  function EscapeRe(s: string): (r: string)
    ensures Unescape(r, '\\') == s
  {
    assert ReSpecials[4] == '\\';
    EscapeRoundTrip(s, ReSpecials, '\\');
    Escape(s, ReSpecials, "\\")
  }

  /** `sqlite_escape`: single quotes are doubled. */
  function SqliteEscape(s: string): (r: string)
    ensures Unescape(r, '\'') == s
    ensures '\'' !in s ==> r == s
  {
    EscapeRoundTrip(s, "'", '\'');
    Escape(s, "'", "'")
  }

  // ---- file extensions ----

  /** Python's `s.rfind(c)`, with `None` for -1. */
  function RFind(s: string, c: char): (r: Option<nat>)
    ensures r.None? <==> c !in s
    ensures r.Some? ==> r.value < |s| && s[r.value] == c && c !in s[r.value + 1..]
  {
    if |s| == 0 then None
    else if s[|s| - 1] == c then
      assert s[|s|..] == [];
      Some(|s| - 1)
    else
      var r := RFind(s[..|s| - 1], c);
      assert s == s[..|s| - 1] + [s[|s| - 1]];
      if r.Some? then
        assert s[r.value + 1..] == s[..|s| - 1][r.value + 1..] + [s[|s| - 1]];
        r
      else r
  }

  /** `get_file_ext`: the part after the last dot, lowercased, or nothing
      when there is no dot. */
  function GetFileExt(filename: string): (r: string)
    ensures '.' !in filename ==> r == ""
    ensures '.' in filename ==> r == Lower(filename[|RemFileExt(filename)| + 1..])
  {
    match RFind(filename, '.')
    case None => ""
    case Some(pos) => Lower(filename[pos + 1..])
  }

  /** `rem_file_ext` of str.py: a name splits at its last dot into the
      stem, the dot and a dot-free raw extension, and the stem is returned;
      without a dot the whole name is. */
  function RemFileExt(filename: string): (stem: string)
    ensures '.' !in filename ==> stem == filename
    ensures '.' in filename ==>
      && |stem| < |filename|
      && stem + "." + filename[|stem| + 1..] == filename
      && '.' !in filename[|stem| + 1..]
  {
    match RFind(filename, '.')
    case None => filename
    case Some(pos) =>
      assert filename == filename[..pos] + "." + filename[pos + 1..];
      filename[..pos]
  }

  // ---- format_time ----

  datatype TimeFormat = Minutes | Hours

  /** `'%02d' % n` for a non-negative integer. */
  function Pad2(n: nat): (s: string)
    ensures |s| >= 2 && AllDigits(s) && DigitsValue(s) == n
  {
    PadDecimal(n, 2)
  }

  /** The fields of a clock rendering of `a` seconds: minutes and seconds,
      or hours, minutes and seconds. */
  function ClockFields(a: nat, format: TimeFormat): (fs: seq<string>)
    ensures |fs| == (if format.Minutes? then 2 else 3)
    ensures forall i :: 0 <= i < |fs| ==> |fs[i]| >= 2 && AllDigits(fs[i])
  {
    match format
    case Minutes => [Pad2(a / 60), Pad2(a % 60)]
    case Hours => [Pad2(a / 60 / 60), Pad2(a / 60 % 60), Pad2(a % 60)]
  }

  /** `format_time` for `FT_MINUTES` ("mm:ss", minutes unbounded) and
      `FT_HOURS` ("hh:mm:ss", hours unbounded); a negative count of seconds
      gets a leading '-' before the rendering of its absolute value. */
  function FormatTime(seconds: int, format: TimeFormat): (r: string)
    ensures |r| > 0
    ensures (r[0] == '-') <==> seconds < 0
  {
    var a: nat := if seconds < 0 then -seconds else seconds;
    var fields := ClockFields(a, format);
    var body := Join(fields, ':');
    assert body[0] == fields[0][0];
    if seconds < 0 then "-" + body else body
  }

  /** The value a list of clock fields denotes. */
  function ClockValue(fields: seq<string>, format: TimeFormat): nat
    requires |fields| == (if format.Minutes? then 2 else 3)
    requires forall i :: 0 <= i < |fields| ==> AllDigits(fields[i])
  {
    if format.Minutes? then DigitsValue(fields[0]) * 60 + DigitsValue(fields[1])
    else DigitsValue(fields[0]) * 3600 + DigitsValue(fields[1]) * 60 + DigitsValue(fields[2])
  }

  /** Reads back a rendering of `format_time`: an optional '-', then two or
      three colon-separated digit fields. */
  function ParseTime(t: string, format: TimeFormat): (r: Option<int>) {
    var negative := |t| > 0 && t[0] == '-';
    var fields := ParseFields(if negative then t[1..] else t, format);
    if fields.None? then None
    else if negative then Some(-fields.value)
    else Some(fields.value)
  }

  /** The value of an unsigned rendering, if it has the right fields. */
  function ParseFields(body: string, format: TimeFormat): Option<int> {
    var fields := Split(body, ':');
    if |fields| != (if format.Minutes? then 2 else 3) then None
    else if !(forall i :: 0 <= i < |fields| ==> AllDigits(fields[i])) then None
    else Some(ClockValue(fields, format))
  }

  lemma ParseNegative(t: string, format: TimeFormat, c: int)
    requires |t| > 0 && t[0] == '-' && ParseFields(t[1..], format) == Some(c)
    ensures ParseTime(t, format) == Some(-c)
  {
  }

  lemma ParseUnsigned(t: string, format: TimeFormat, c: int)
    requires |t| > 0 && t[0] != '-' && ParseFields(t, format) == Some(c)
    ensures ParseTime(t, format) == Some(c)
  {
  }

  lemma DigitsHaveNoColon(fields: seq<string>)
    requires forall i :: 0 <= i < |fields| ==> AllDigits(fields[i])
    ensures forall i :: 0 <= i < |fields| ==> ':' !in fields[i]
  {
  }

  lemma ClockArithmetic(a: nat)
    ensures (a / 60) * 60 + a % 60 == a
    ensures (a / 60 / 60) * 3600 + (a / 60 % 60) * 60 + a % 60 == a
  {
    var m := a / 60;
    assert m * 60 + a % 60 == a;
    assert (m / 60) * 60 + m % 60 == m;
    assert (m / 60) * 3600 == (m / 60) * 60 * 60;
  }

  /** The clock fields of `a` denote `a`. */
  lemma ClockFieldsValue(a: nat, format: TimeFormat)
    ensures ClockValue(ClockFields(a, format), format) == a
  {
    ClockArithmetic(a);
  }

  /** `format_time` loses nothing: its rendering reads back to the number of seconds. */
  lemma FormatTimeRoundTrip(seconds: int, format: TimeFormat)
    ensures ParseTime(FormatTime(seconds, format), format) == Some(seconds)
  {
    var a: nat := if seconds < 0 then -seconds else seconds;
    var fields := ClockFields(a, format);
    var body := Join(fields, ':');
    DigitsHaveNoColon(fields);
    SplitJoin(fields, ':');
    ClockFieldsValue(a, format);
    assert body[0] == fields[0][0];
    assert ParseFields(body, format) == Some(a);
    var t := FormatTime(seconds, format);
    if seconds < 0 {
      assert t == "-" + body;
      assert t[1..] == body;
      ParseNegative(t, format, a);
    } else {
      assert t == body;
      ParseUnsigned(t, format, a);
    }
  }

  /** In the hour format the minute and second fields stay below 60 and the
      leading field counts whole hours. */
  lemma FormatTimeHoursFields(seconds: nat)
    ensures exists h: nat, m: nat, s: nat ::
      && m < 60 && s < 60
      && h * 3600 + m * 60 + s == seconds
      && FormatTime(seconds, Hours) == Pad2(h) + ":" + Pad2(m) + ":" + Pad2(s)
  {
    var h, m, s := seconds / 60 / 60, seconds / 60 % 60, seconds % 60;
    ClockArithmetic(seconds);
    assert ClockFields(seconds, Hours) == [Pad2(h), Pad2(m), Pad2(s)];
    JoinThree(Pad2(h), Pad2(m), Pad2(s));
    assert FormatTime(seconds, Hours) == Join([Pad2(h), Pad2(m), Pad2(s)], ':');
  }

  lemma JoinThree(x: string, y: string, z: string)
    ensures Join([x, y, z], ':') == x + ":" + y + ":" + z
  {
    assert [x, y, z][1..] == [y, z];
    JoinTwo(y, z);
    assert Join([x, y, z], ':') == x + ":" + (y + ":" + z);
  }

  lemma JoinTwo(x: string, y: string)
    ensures Join([x, y], ':') == x + ":" + y
  {
    assert [x, y][1..] == [y];
  }

  // ---- multi_replace ----

  /** Python's `s.replace(pat, rep)`: non-overlapping occurrences, left to
      right; an empty pattern inserts `rep` around every character. */
  function Replace(s: string, pat: string, rep: string): (r: string)
    ensures |pat| > 0 && !IsSubstring(pat, s) ==> r == s
    decreases |s|
  {
    if |pat| == 0 then
      if |s| == 0 then rep else rep + [s[0]] + Replace(s[1..], pat, rep)
    else if |s| < |pat| then s
    else if s[..|pat|] == pat then
      assert OccursAt(pat, s, 0);
      rep + Replace(s[|pat|..], pat, rep)
    else
      SubstringOfTail(pat, s);
      assert [s[0]] + s[1..] == s;
      [s[0]] + Replace(s[1..], pat, rep)
  }

  lemma SubstringOfTail(pat: string, s: string)
    requires |s| >= 1
    ensures IsSubstring(pat, s[1..]) ==> IsSubstring(pat, s)
  {
    if IsSubstring(pat, s[1..]) {
      var i :| 0 <= i <= |s[1..]| && OccursAt(pat, s[1..], i);
      assert s[i + 1..i + 1 + |pat|] == s[1..][i..i + |pat|];
      assert OccursAt(pat, s, i + 1);
    }
  }

  /** Replacing a pattern by itself changes nothing. */
  lemma {:induction false} ReplaceSelf(s: string, pat: string)
    requires |pat| > 0
    ensures Replace(s, pat, pat) == s
    decreases |s|
  {
    if |s| >= |pat| {
      if s[..|pat|] == pat {
        ReplaceSelf(s[|pat|..], pat);
        assert s[..|pat|] + s[|pat|..] == s;
      } else {
        ReplaceSelf(s[1..], pat);
        assert [s[0]] + s[1..] == s;
      }
    }
  }

  /** Replacing a single character by a string free of it removes it. */
  lemma {:induction false} ReplaceCharRemoves(s: string, c: char, rep: string)
    requires c !in rep
    ensures c !in Replace(s, [c], rep)
    decreases |s|
  {
    if |s| >= 1 {
      ReplaceCharRemoves(s[1..], c, rep);
      if s[..1] == [c] {
        assert s[1..] == s[|[c]|..];
      }
    }
  }

  /** Python's `sep.join(parts)` for a string separator. */
  function JoinWith(parts: seq<string>, sep: string): string {
    if |parts| == 0 then ""
    else if |parts| == 1 then parts[0]
    else parts[0] + sep + JoinWith(parts[1..], sep)
  }

  /** Replacing one character is splitting on it and joining the pieces with
      the replacement: `s.replace(c, rep) == rep.join(s.split(c))`. */
  lemma {:induction false} ReplaceCharIsSplitJoin(s: string, c: char, rep: string)
    ensures Replace(s, [c], rep) == JoinWith(Split(s, c), rep)
    decreases |s|
  {
    if |s| > 0 {
      ReplaceCharIsSplitJoin(s[1..], c, rep);
      var rest := Split(s[1..], c);
      if s[0] == c {
        assert s[..1] == [c];
        assert Split(s, c) == [""] + rest;
        assert ([""] + rest)[1..] == rest;
      } else {
        assert s[..1] != [c];
        assert Split(s, c) == [[s[0]] + rest[0]] + rest[1..];
        if |rest| > 1 {
          assert ([[s[0]] + rest[0]] + rest[1..])[1..] == rest[1..];
        }
      }
    }
  }

  /** A character absent from both the string and the replacement stays absent. */
  lemma {:induction false} ReplaceKeepsAbsent(s: string, pat: string, rep: string, d: char)
    requires d !in s && d !in rep
    ensures d !in Replace(s, pat, rep)
    decreases |s|
  {
    if |pat| == 0 {
      if |s| > 0 {
        ReplaceKeepsAbsent(s[1..], pat, rep, d);
      }
    } else if |s| >= |pat| {
      if s[..|pat|] == pat {
        ReplaceKeepsAbsent(s[|pat|..], pat, rep, d);
      } else {
        ReplaceKeepsAbsent(s[1..], pat, rep, d);
      }
    }
  }

  /** A one-character string occurs exactly where the character does. */
  lemma CharSubstring(c: char, s: string)
    ensures IsSubstring([c], s) <==> c in s
  {
    if c in s {
      var i :| 0 <= i < |s| && s[i] == c;
      assert OccursAt([c], s, i);
    }
    if IsSubstring([c], s) {
      var i :| 0 <= i <= |s| && OccursAt([c], s, i);
      assert s[i] == s[i..i + 1][0];
    }
  }

  /** A pattern list or replacement list, given either as a string (one
      item per character) or as a sequence of strings. */
  datatype Strings = Chars(text: string) | Items(items: seq<string>)

  function ItemsOf(v: Strings): (r: seq<string>)
    ensures v.Items? ==> r == v.items
    ensures v.Chars? ==> |r| == |v.text| && forall i :: 0 <= i < |r| ==> r[i] == [v.text[i]]
  {
    match v
    case Chars(t) => seq(|t|, i requires 0 <= i < |t| => [t[i]])
    case Items(xs) => xs
  }

  datatype ReplaceError = LengthMismatch

  /** Applies `froms[i] -> tos[i]` in order to `s`, skipping every pattern
      that does not occur in the ORIGINAL string `orig`. */
  function ApplyPairs(orig: string, s: string, froms: seq<string>, tos: seq<string>): string
    requires |froms| == |tos|
    decreases |froms|
  {
    if |froms| == 0 then s
    else
      var s1 := if IsSubstring(froms[0], orig) then Replace(s, froms[0], tos[0]) else s;
      ApplyPairs(orig, s1, froms[1..], tos[1..])
  }

  /** `multi_replace`: a string replacement of a different length from the
      pattern list is used for every pattern; otherwise the two lists must
      have the same length, or the call fails with ValueError. */
  function MultiReplace(s: string, from: Strings, to: Strings): (r: Result<string, ReplaceError>)
    ensures r.Err? <==> to.Items? && |ItemsOf(from)| != |to.items|
    ensures r.Ok? && to.Chars? && |ItemsOf(from)| != |to.text| ==>
      r.value == ApplyPairs(s, s, ItemsOf(from), seq(|ItemsOf(from)|, _ => to.text))
    ensures r.Ok? && (to.Items? || |ItemsOf(from)| == |to.text|) ==>
      r.value == ApplyPairs(s, s, ItemsOf(from), ItemsOf(to))
  {
    var froms := ItemsOf(from);
    var tos :=
      if to.Chars? && |froms| != |to.text| then seq(|froms|, _ => to.text)
      else ItemsOf(to);
    if |froms| != |tos| then Err(LengthMismatch)
    else Ok(ApplyPairs(s, s, froms, tos))
  }

  /** When no pattern occurs in the string, `multi_replace` returns it unchanged. */
  lemma {:induction false} ApplyPairsAbsent(orig: string, froms: seq<string>, tos: seq<string>)
    requires |froms| == |tos|
    requires forall i :: 0 <= i < |froms| ==> !IsSubstring(froms[i], orig)
    ensures ApplyPairs(orig, orig, froms, tos) == orig
  {
    if |froms| > 0 {
      ApplyPairsAbsent(orig, froms[1..], tos[1..]);
    }
  }

  /** A character absent from the string and from every replacement stays
      absent however the pairs are applied. */
  lemma {:induction false} ApplyPairsKeepsAbsent(orig: string, s: string, froms: seq<string>, tos: seq<string>, d: char)
    requires |froms| == |tos|
    requires d !in s && forall i :: 0 <= i < |tos| ==> d !in tos[i]
    ensures d !in ApplyPairs(orig, s, froms, tos)
    decreases |froms|
  {
    if |froms| > 0 {
      ReplaceKeepsAbsent(s, froms[0], tos[0], d);
      ApplyPairsKeepsAbsent(orig, if IsSubstring(froms[0], orig) then Replace(s, froms[0], tos[0]) else s, froms[1..], tos[1..], d);
    }
  }

  /** With one-character patterns and replacements free of every pattern
      character, no pattern character is left: a character of the current
      string that a pattern names was in the original, so its pair is applied. */
  lemma {:induction false} ApplyPairsRemovesChars(orig: string, s: string, froms: seq<string>, tos: seq<string>)
    requires |froms| == |tos|
    requires forall j :: 0 <= j < |froms| ==> |froms[j]| == 1
    requires forall i, j :: 0 <= i < |tos| && 0 <= j < |froms| ==> froms[j][0] !in tos[i]
    requires forall j :: 0 <= j < |froms| && froms[j][0] in s ==> froms[j][0] in orig
    ensures forall j :: 0 <= j < |froms| ==> froms[j][0] !in ApplyPairs(orig, s, froms, tos)
    decreases |froms|
  {
    if |froms| > 0 {
      var c := froms[0][0];
      assert froms[0] == [c];
      CharSubstring(c, orig);
      var s1 := if IsSubstring(froms[0], orig) then Replace(s, froms[0], tos[0]) else s;
      assert c !in s1 by {
        if IsSubstring(froms[0], orig) {
          ReplaceCharRemoves(s, c, tos[0]);
        }
      }
      forall j | 1 <= j < |froms| && froms[j][0] in s1
        ensures froms[j][0] in orig
      {
        if IsSubstring(froms[0], orig) {
          if froms[j][0] !in s {
            ReplaceKeepsAbsent(s, froms[0], tos[0], froms[j][0]);
          }
        }
      }
      ApplyPairsRemovesChars(orig, s1, froms[1..], tos[1..]);
      ApplyPairsKeepsAbsent(orig, s1, froms[1..], tos[1..], c);
      forall j | 0 <= j < |froms|
        ensures froms[j][0] !in ApplyPairs(orig, s, froms, tos)
      {
        if j > 0 {
          assert froms[j] == froms[1..][j - 1];
        }
      }
    }
  }

  /** `multi_replace(s, chars, to)` with a replacement string holding none
      of the pattern characters removes every one of them from `s`, whether
      the replacement is broadcast or paired character by character. */
  lemma MultiReplaceRemovesChars(s: string, chars: string, to: string)
    requires forall i, j :: 0 <= i < |to| && 0 <= j < |chars| ==> chars[j] != to[i]
    ensures MultiReplace(s, Chars(chars), Chars(to)).Ok?
    ensures forall j :: 0 <= j < |chars| ==> chars[j] !in MultiReplace(s, Chars(chars), Chars(to)).value
  {
    var froms := ItemsOf(Chars(chars));
    var tos := if |froms| != |to| then seq(|froms|, _ => to) else ItemsOf(Chars(to));
    forall i, j | 0 <= i < |tos| && 0 <= j < |froms|
      ensures froms[j][0] !in tos[i]
    {
      assert froms[j][0] == chars[j];
    }
    ApplyPairsRemovesChars(s, s, froms, tos);
    forall j | 0 <= j < |chars|
      ensures chars[j] !in MultiReplace(s, Chars(chars), Chars(to)).value
    {
      assert froms[j][0] == chars[j];
    }
  }

  /** One pattern behaves exactly like `str.replace`, however the
      replacement is given. */
  lemma MultiReplaceSingle(s: string, pat: string, rep: string)
    requires IsSubstring(pat, s)
    ensures MultiReplace(s, Items([pat]), Chars(rep)) == Ok(Replace(s, pat, rep))
    ensures MultiReplace(s, Items([pat]), Items([rep])) == Ok(Replace(s, pat, rep))
  {
    var r := Replace(s, pat, rep);
    assert ApplyPairs(s, s, [pat], [rep]) == ApplyPairs(s, r, [], []);
    if |rep| == 1 {
      assert [rep[0]] == rep;
      assert ItemsOf(Chars(rep)) == [rep];
    } else {
      assert seq(1, _ => rep) == [rep];
    }
  }

  /** A pattern absent from the original string is skipped even when an
      earlier replacement has produced it: `multi_replace("a", "ab", "bc")`
      gives "b", not the "c" of two successive `str.replace` calls. */
  lemma MultiReplaceSkipsProducedPattern()
    ensures MultiReplace("a", Chars("ab"), Chars("bc")) == Ok("b")
    ensures Replace(Replace("a", "a", "b"), "b", "c") == "c"
  {
    assert ItemsOf(Chars("ab")) == ["a", "b"];
    assert ItemsOf(Chars("bc")) == ["b", "c"];
    assert OccursAt("a", "a", 0);
    assert !IsSubstring("b", "a") by {
      forall i | 0 <= i <= 1
        ensures !OccursAt("b", "a", i)
      {
      }
    }
    assert Replace("a", "a", "b") == "b";
    assert ApplyPairs("a", "a", ["a", "b"], ["b", "c"]) == ApplyPairs("a", "b", ["b"], ["c"]);
    assert ApplyPairs("a", "b", ["b"], ["c"]) == ApplyPairs("a", "b", [], []);
  }

  /** With the default empty replacement, every pattern is deleted. */
  lemma MultiReplaceBroadcastExample()
    ensures MultiReplace("a.b", Chars("."), Chars("")) == Ok("ab")
  {
    assert ItemsOf(Chars(".")) == ["."];
    assert seq(1, _ => "") == [""];
    assert OccursAt(".", "a.b", 1);
    assert Replace("a.b", ".", "") == "ab";
    assert ApplyPairs("a.b", "a.b", ["."], [""]) == ApplyPairs("a.b", "ab", [], []);
  }

  /** A replacement list of the wrong length is rejected, from the unit tests. */
  lemma MultiReplaceMismatchExample()
    ensures MultiReplace("123456", Items(["2", "45"]), Items(["7", "8", "9"])) == Err(LengthMismatch)
  {
  }

  lemma PadExamples()
    ensures Pad2(0) == "00" && Pad2(1) == "01"
  {
    assert Decimal(0) == "0";
    assert Decimal(1) == "1";
    assert Zeros(1) == "0";
  }

  /** A negative count of seconds, from the unit tests. */
  lemma FormatTimeNegativeExample()
    ensures FormatTime(-1, Minutes) == "-00:01"
  {
    assert 1 / 60 == 0 && 1 % 60 == 1;
    var fields := ClockFields(1, Minutes);
    assert fields == [Pad2(0), Pad2(1)];
    PadExamples();
    JoinTwo("00", "01");
    assert FormatTime(-1, Minutes) == "-" + Join(fields, ':');
  }
}
