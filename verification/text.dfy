/** Character and string helpers shared by the path, string, conflict and
    registration models: decimal rendering, splitting and joining on a
    separator character, ASCII case folding and whitespace stripping. */
module Text {

  predicate IsDigit(c: char) {
    '0' <= c <= '9'
  }

  predicate AllDigits(s: string) {
    forall i :: 0 <= i < |s| ==> IsDigit(s[i])
  }

  function DigitChar(d: nat): (c: char)
    requires d < 10
    ensures IsDigit(c)
  {
    ['0', '1', '2', '3', '4', '5', '6', '7', '8', '9'][d]
  }

  function DigitVal(c: char): (d: nat)
    requires IsDigit(c)
    ensures d < 10
  {
    (c as int - '0' as int) as nat
  }

  lemma DigitRoundTrip(d: nat)
    requires d < 10
    ensures DigitVal(DigitChar(d)) == d
  {
  }

  /** The number a string of decimal digits denotes; leading zeros are allowed. */
  function DigitsValue(s: string): nat
    requires AllDigits(s)
  {
    if |s| == 0 then 0 else DigitsValue(s[..|s| - 1]) * 10 + DigitVal(s[|s| - 1])
  }

  /** Python's `str(n)` for a non-negative integer: digits without leading zeros. */
  function Decimal(n: nat): (s: string)
    ensures 1 <= |s|
    ensures AllDigits(s)
    ensures DigitsValue(s) == n
  {
    var last := [DigitChar(n % 10)];
    DigitRoundTrip(n % 10);
    if n < 10 then
      assert last[..0] == [];
      last
    else
      var prefix := Decimal(n / 10);
      var s := prefix + last;
      assert s[..|s| - 1] == prefix;
      s
  }

  /** A run of `k` zero characters. */
  function Zeros(k: nat): (s: string)
    ensures |s| == k
    ensures forall i :: 0 <= i < |s| ==> s[i] == '0'
  {
    seq(k, _ => '0')
  }

  lemma {:induction false} ZerosPrefixValue(k: nat, s: string)
    requires AllDigits(s)
    ensures AllDigits(Zeros(k) + s)
    ensures DigitsValue(Zeros(k) + s) == DigitsValue(s)
    decreases |s|
  {
    var z := Zeros(k) + s;
    if |s| == 0 {
      assert z == Zeros(k);
      ZerosValue(k);
    } else {
      assert z[..|z| - 1] == Zeros(k) + s[..|s| - 1];
      ZerosPrefixValue(k, s[..|s| - 1]);
    }
  }

  lemma {:induction false} ZerosValue(k: nat)
    ensures AllDigits(Zeros(k))
    ensures DigitsValue(Zeros(k)) == 0
  {
    if k > 0 {
      assert Zeros(k)[..k - 1] == Zeros(k - 1);
      ZerosValue(k - 1);
    }
  }

  /** Python's `'%0<width>d' % n` for a non-negative integer: the decimal
      digits of `n`, left-padded with zeros to at least `width` characters. */
  function PadDecimal(n: nat, width: nat): (s: string)
    ensures |s| >= width && |s| >= 1
    ensures AllDigits(s)
    ensures DigitsValue(s) == n
  {
    var d := Decimal(n);
    var k := if |d| < width then width - |d| else 0;
    ZerosPrefixValue(k, d);
    Zeros(k) + d
  }

  /** Distinct numbers never share a zero-padded rendering. */
  lemma PadDecimalInjective(a: nat, b: nat, width: nat)
    requires PadDecimal(a, width) == PadDecimal(b, width)
    ensures a == b
  {
  }

  // ---- splitting and joining on one separator character ----

  /** Python's `s.split(c)` for a one-character separator: the pieces between
      occurrences of `c`, always at least one. */
  function Split(s: string, c: char): (parts: seq<string>)
    ensures |parts| >= 1
    ensures forall i :: 0 <= i < |parts| ==> c !in parts[i]
  {
    if |s| == 0 then [""]
    else if s[0] == c then [""] + Split(s[1..], c)
    else
      var rest := Split(s[1..], c);
      [[s[0]] + rest[0]] + rest[1..]
  }

  /** Python's `c.join(parts)`. */
  function Join(parts: seq<string>, c: char): string {
    if |parts| == 0 then ""
    else if |parts| == 1 then parts[0]
    else parts[0] + [c] + Join(parts[1..], c)
  }

  /** Splitting then joining gives back the original string. */
  lemma {:induction false} JoinSplit(s: string, c: char)
    ensures Join(Split(s, c), c) == s
  {
    if |s| == 0 {
    } else if s[0] == c {
      JoinSplit(s[1..], c);
      var rest := Split(s[1..], c);
      assert Split(s, c) == [""] + rest;
      assert ([""] + rest)[1..] == rest;
    } else {
      JoinSplit(s[1..], c);
      var rest := Split(s[1..], c);
      var parts := [[s[0]] + rest[0]] + rest[1..];
      assert Split(s, c) == parts;
      if |rest| == 1 {
        assert Join(parts, c) == [s[0]] + rest[0];
      } else {
        assert parts[1..] == rest[1..];
        assert Join(rest, c) == rest[0] + [c] + Join(rest[1..], c);
      }
    }
  }

  /** Splitting a string that lacks the separator yields that one string. */
  lemma {:induction false} SplitWithout(s: string, c: char)
    requires c !in s
    ensures Split(s, c) == [s]
  {
    if |s| > 0 {
      SplitWithout(s[1..], c);
      assert [s[0]] + s[1..] == s;
    }
  }

  lemma {:induction false} SplitPrefixPiece(a: string, c: char, s: string)
    requires c !in a
    ensures Split(a + [c] + s, c) == [a] + Split(s, c)
    decreases |a|
  {
    if |a| == 0 {
      assert a + [c] + s == [c] + s;
      assert ([c] + s)[1..] == s;
    } else {
      var t := a + [c] + s;
      assert t[0] == a[0];
      assert t[1..] == a[1..] + [c] + s;
      SplitPrefixPiece(a[1..], c, s);
      assert [a[0]] + a[1..] == a;
    }
  }

  /** The last piece is empty exactly when the string ends with the
      separator, and then there are at least two pieces. */
  lemma {:induction false} SplitLast(s: string, c: char)
    requires |s| > 0
    ensures var ps := Split(s, c); ps[|ps| - 1] == "" <==> s[|s| - 1] == c
    ensures s[|s| - 1] == c ==> |Split(s, c)| > 1
  {
    var ps := Split(s, c);
    if |s| == 1 {
      assert s[1..] == "";
    } else {
      var rest := Split(s[1..], c);
      SplitLast(s[1..], c);
      assert s[1..][|s| - 2] == s[|s| - 1];
      if s[0] == c {
        assert ps == [""] + rest;
        assert ps[|ps| - 1] == rest[|rest| - 1];
      } else {
        assert ps == [[s[0]] + rest[0]] + rest[1..];
        if |rest| > 1 {
          assert ps[|ps| - 1] == rest[|rest| - 1];
        }
      }
    }
  }

  /** Joining pieces free of the separator and splitting again gives the pieces back. */
  lemma {:induction false} SplitJoin(parts: seq<string>, c: char)
    requires |parts| >= 1
    requires forall i :: 0 <= i < |parts| ==> c !in parts[i]
    ensures Split(Join(parts, c), c) == parts
  {
    if |parts| == 1 {
      SplitWithout(parts[0], c);
    } else {
      SplitJoin(parts[1..], c);
      SplitPrefixPiece(parts[0], c, Join(parts[1..], c));
      assert [parts[0]] + parts[1..] == parts;
    }
  }

  /** Joined pieces contain the separator exactly when there are at least two. */
  lemma {:induction false} JoinContainsSep(parts: seq<string>, c: char)
    requires forall i :: 0 <= i < |parts| ==> c !in parts[i]
    ensures c in Join(parts, c) <==> |parts| >= 2
  {
    if |parts| >= 2 {
      var j := Join(parts, c);
      assert j == parts[0] + [c] + Join(parts[1..], c);
      assert j[|parts[0]|] == c;
    }
  }

  // ---- ASCII case folding and whitespace ----

  function LowerChar(c: char): char {
    if 'A' <= c <= 'Z' then (c as int + 32) as char else c
  }

  /** Python's `s.lower()` on ASCII text. */
  function Lower(s: string): (r: string)
    ensures |r| == |s|
    ensures forall i :: 0 <= i < |s| ==> r[i] == LowerChar(s[i])
  {
    seq(|s|, i requires 0 <= i < |s| => LowerChar(s[i]))
  }

  /** The characters Python's `str.strip()` removes from byte strings. */
  predicate IsSpace(c: char) {
    c == ' ' || c == '\t' || c == '\n' || c == '\r' || c == '\U{b}' || c == '\U{c}'
  }

  /** Python's `s.lstrip()`: the leading whitespace removed, nothing else. */
  function StripLeft(s: string): (r: string)
    ensures |r| <= |s| && r == s[|s| - |r|..]
    ensures |r| > 0 ==> !IsSpace(r[0])
    ensures forall i :: 0 <= i < |s| - |r| ==> IsSpace(s[i])
  {
    if |s| > 0 && IsSpace(s[0]) then StripLeft(s[1..]) else s
  }

  /** Python's `s.rstrip()`: the trailing whitespace removed, nothing else. */
  function StripRight(s: string): (r: string)
    ensures |r| <= |s| && r == s[..|r|]
    ensures |r| > 0 ==> !IsSpace(r[|r| - 1])
    ensures forall i :: |r| <= i < |s| ==> IsSpace(s[i])
  {
    if |s| > 0 && IsSpace(s[|s| - 1]) then StripRight(s[..|s| - 1]) else s
  }

  /** Python's `s.strip()`: the run of `s` left once the leading and the
      trailing whitespace are removed. */
  function Strip(s: string): (r: string)
    ensures var a := |s| - |StripLeft(s)|;
      && OccursAt(r, s, a)
      && (forall i :: 0 <= i < a ==> IsSpace(s[i]))
      && (forall i :: a + |r| <= i < |s| ==> IsSpace(s[i]))
    ensures |r| > 0 ==> !IsSpace(r[0]) && !IsSpace(r[|r| - 1])
    ensures (forall i :: 0 <= i < |s| ==> IsSpace(s[i])) ==> r == ""
  {
    var l := StripLeft(s);
    var r := StripRight(l);
    StripParts(s, l, r);
    r
  }

  lemma StripParts(s: string, l: string, r: string)
    requires |l| <= |s| && l == s[|s| - |l|..]
    requires |r| <= |l| && r == l[..|r|]
    requires forall i :: |r| <= i < |l| ==> IsSpace(l[i])
    ensures OccursAt(r, s, |s| - |l|)
    ensures forall i :: |s| - |l| + |r| <= i < |s| ==> IsSpace(s[i])
  {
    var a := |s| - |l|;
    assert s[a..a + |r|] == l[..|r|];
    forall i | a + |r| <= i < |s|
      ensures IsSpace(s[i])
    {
      assert s[i] == l[i - a];
    }
  }

  // ---- substrings ----

  /** `pat` occurs in `s` starting at index `i`. */
  predicate OccursAt(pat: string, s: string, i: int) {
    0 <= i && i + |pat| <= |s| && s[i..i + |pat|] == pat
  }

  /** Python's `pat in s` for strings. */
  predicate IsSubstring(pat: string, s: string) {
    exists i :: 0 <= i <= |s| && OccursAt(pat, s, i)
  }
}
