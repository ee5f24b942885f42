/** Flag conversions and list helpers from misc.py. A flag set is the list
    of bit positions, counted from 0, that are set in an integer. */
module Misc {
  import opened Results

  // ---- powers of two and bits ----

  function Pow2(k: nat): (p: nat)
    ensures p >= 1
  {
    if k == 0 then 1 else 2 * Pow2(k - 1)
  }

  lemma {:induction false} Pow2Add(a: nat, b: nat)
    ensures Pow2(a + b) == Pow2(a) * Pow2(b)
    decreases a
  {
    if a > 0 {
      Pow2Add(a - 1, b);
    }
  }

  /** Bit `i` of `n`: Python's `(n >> i) & 1`. The shift floors, as Dafny's
      division by a positive number does, so this holds for negative `n` too. */
  function Bit(n: int, i: nat): (b: int)
    ensures b == 0 || b == 1
  {
    (n / Pow2(i)) % 2
  }

  lemma MulLeft(a: int, b: int, d: int)
    requires a <= b && d > 0
    ensures a * d <= b * d
  {
  }

  /** Euclidean division is determined by its bounds. */
  lemma ModUnique(n: int, d: int, q: int, m: int)
    requires d > 0 && 0 <= m < d && n == q * d + m
    ensures n / d == q && n % d == m
  {
    var r := n / d;
    assert r * d <= n < r * d + d;
    if r < q {
      MulLeft(r + 1, q, d);
    } else if r > q {
      MulLeft(q + 1, r, d);
    }
  }

  /** The low `c + 1` bits of `n` are its low `c` bits plus bit `c`. */
  lemma ModPow2Step(n: int, c: nat)
    ensures n % Pow2(c + 1) == n % Pow2(c) + Bit(n, c) * Pow2(c)
  {
    var p := Pow2(c);
    var q, r := n / p, n % p;
    var h, b := q / 2, q % 2;
    assert n == q * p + r;
    assert q == h * 2 + b;
    assert q * p == h * (2 * p) + b * p;
    assert 0 <= b * p + r < 2 * p;
    ModUnique(n, 2 * p, h, b * p + r);
  }

  // ---- IntToFlags / FlagsToInt / StrToFlags ----

  /** `IntToFlags(n, c)`: the positions below `c` whose bit is set in `n`, ascending. */
  function IntToFlags(n: int, c: nat): (r: seq<nat>)
    ensures forall i :: 0 <= i < |r| ==> r[i] < c
    ensures forall i, j :: 0 <= i < j < |r| ==> r[i] < r[j]
    ensures forall k: nat :: k < c ==> (k in r <==> Bit(n, k) == 1)
  {
    if c == 0 then []
    else
      var rest := IntToFlags(n, c - 1);
      rest + BitFlag(n, c - 1)
  }

  /** `FlagsToInt`: the sum of `1 << f` over the flags. A repeated flag
      counts twice, as in the source. */
  function FlagsToInt(flags: seq<nat>): (r: nat)
    ensures |flags| == 0 ==> r == 0
  {
    if |flags| == 0 then 0 else Pow2(flags[0]) + FlagsToInt(flags[1..])
  }

  lemma {:induction false} FlagsToIntAppend(a: seq<nat>, b: seq<nat>)
    ensures FlagsToInt(a + b) == FlagsToInt(a) + FlagsToInt(b)
  {
    if |a| > 0 {
      assert (a + b)[1..] == a[1..] + b;
      FlagsToIntAppend(a[1..], b);
    } else {
      assert a + b == b;
    }
  }

  /** Converting to flags and back keeps exactly the low `c` bits of `n`. */
  lemma {:induction false} FlagsRoundTrip(n: int, c: nat)
    ensures FlagsToInt(IntToFlags(n, c)) == n % Pow2(c)
  {
    if c > 0 {
      var k := c - 1;
      FlagsRoundTrip(n, k);
      var rest, tail := IntToFlags(n, k), BitFlag(n, k);
      IntToFlagsStep(n, k);
      FlagsToIntAppend(rest, tail);
      BitFlagValue(n, k);
      ModPow2Step(n, k);
    } else {
      assert Pow2(c) == 1;
      ModUnique(n, 1, n, 0);
    }
  }

  lemma IntToFlagsStep(n: int, k: nat)
    ensures IntToFlags(n, k + 1) == IntToFlags(n, k) + BitFlag(n, k)
  {
  }

  /** The flag list bit `k` of `n` contributes: `[k]` when it is set. */
  function BitFlag(n: int, k: nat): seq<nat> {
    if Bit(n, k) == 1 then [k] else []
  }

  lemma BitFlagValue(n: int, k: nat)
    ensures FlagsToInt(BitFlag(n, k)) == Bit(n, k) * Pow2(k)
  {
    if Bit(n, k) == 1 {
      assert BitFlag(n, k)[1..] == [];
    }
  }

  /** `FlagsToInt(IntToFlags(n, c)) == n` for every `n` that fits in `c` bits. */
  lemma FlagsRoundTripInRange(n: int, c: nat)
    requires 0 <= n < Pow2(c)
    ensures FlagsToInt(IntToFlags(n, c)) == n
  {
    FlagsRoundTrip(n, c);
    ModUnique(n, Pow2(c), 0, n);
  }

  /** A byte of a Python 2 byte string. */
  type Byte = x: nat | x < 256

  /** The bytes of `s` read as a big-endian integer. */
  function BigEndian(s: seq<Byte>): (v: nat)
    ensures v < Pow2(8 * |s|)
  {
    if |s| == 0 then 0
    else
      var init := BigEndian(s[..|s| - 1]);
      Pow2Add(8 * (|s| - 1), 8);
      assert Pow2(8) == 256;
      MulLeft(init + 1, Pow2(8 * (|s| - 1)), 256);
      init * 256 + s[|s| - 1]
  }

  lemma BigEndianStep(s: seq<Byte>, i: nat)
    requires i < |s|
    ensures BigEndian(s[..i + 1]) * Pow2((|s| - i - 1) * 8)
      == BigEndian(s[..i]) * Pow2(8 * (|s| - i)) + s[i] * Pow2((|s| - i - 1) * 8)
  {
    var k := (|s| - i - 1) * 8;
    assert s[..i + 1][..i] == s[..i];
    assert BigEndian(s[..i + 1]) == BigEndian(s[..i]) * 256 + s[i];
    Pow2Add(8, k);
    assert 8 * (|s| - i) == 8 + k;
    Pow2Eight();
    ShiftStep(BigEndian(s[..i]), s[i], Pow2(k));
  }

  lemma Pow2Eight()
    ensures Pow2(8) == 256
  {
  }

  lemma ShiftStep(b: int, x: int, p: int)
    ensures (b * 256 + x) * p == b * (256 * p) + x * p
  {
  }

  /** `StrToFlags(s, flagcount)`: every byte is shifted into place by
      `8 * (len - i - 1)` and summed; a flag count of 0 means `8 * len`. */
  method StrToFlags(s: seq<Byte>, flagcount: nat) returns (r: seq<nat>)
    ensures r == IntToFlags(BigEndian(s), if flagcount == 0 then 8 * |s| else flagcount)
    ensures flagcount == 0 ==> FlagsToInt(r) == BigEndian(s)
  {
    var flagval := 0;
    var i := 0;
    while i < |s|
      invariant 0 <= i <= |s|
      invariant flagval == BigEndian(s[..i]) * Pow2(8 * (|s| - i))
    {
      BigEndianStep(s, i);
      flagval := flagval + s[i] * Pow2((|s| - i - 1) * 8);
      i := i + 1;
    }
    assert s[..i] == s;
    assert Pow2(8 * (|s| - i)) == 1;
    assert flagval == BigEndian(s);
    var count := if flagcount == 0 then |s| * 8 else flagcount;
    r := IntToFlags(flagval, count);
    if flagcount == 0 {
      FlagsRoundTripInRange(flagval, count);
    }
  }

  /** Examples from the docstrings and unit tests. */
  lemma FlagExamples()
    ensures FlagsToInt([0, 6]) == 0x41
    ensures IntToFlags(5, 3) == [0, 2]
  {
    assert Pow2(6) == 64;
    assert Bit(5, 0) == 1 && Bit(5, 1) == 0 && Bit(5, 2) == 1;
  }

  // ---- small helpers ----

  /** `cond`. */
  function Cond<T>(condition: bool, whenTrue: T, whenFalse: T): (r: T)
    ensures condition ==> r == whenTrue
    ensures !condition ==> r == whenFalse
  {
    if condition then whenTrue else whenFalse
  }

  /** `nonone`. */
  function Nonone<T>(value: Option<T>, replacement: T): (r: T)
    ensures value.Some? ==> r == value.value
    ensures value.None? ==> r == replacement
  {
    match value
    case Some(v) => v
    case None => replacement
  }

  /** `stripnone`: the values of `s`, in order, without the Nones. */
  function StripNone<T>(s: seq<Option<T>>): (r: seq<T>)
    ensures |r| <= |s|
    ensures forall i :: 0 <= i < |r| ==> Some(r[i]) in s
    ensures forall i :: 0 <= i < |s| && s[i].Some? ==> s[i].value in r
  {
    if |s| == 0 then []
    else
      var rest := StripNone(s[1..]);
      assert forall i :: 1 <= i < |s| ==> s[i] == s[1..][i - 1];
      match s[0]
      case None => rest
      case Some(v) => [v] + rest
  }

  lemma {:induction false} StripNoneAppend<T>(a: seq<Option<T>>, b: seq<Option<T>>)
    ensures StripNone(a + b) == StripNone(a) + StripNone(b)
  {
    if |a| > 0 {
      assert (a + b)[1..] == a[1..] + b;
      StripNoneAppend(a[1..], b);
    } else {
      assert a + b == b;
    }
  }

  /** `first`: None for an empty sequence. */
  function First<T>(s: seq<T>): (r: Option<T>)
    ensures r.None? <==> |s| == 0
    ensures r.Some? ==> r.value == s[0]
  {
    if |s| == 0 then None else Some(s[0])
  }

  /** `first` on a sequence whose elements may themselves be None. Python
      cannot tell the None returned for an empty sequence from a first
      element that is None, so both collapse to None. */
  function FirstItem<T>(s: seq<Option<T>>): (r: Option<T>)
    ensures r.Some? <==> |s| > 0 && s[0].Some?
    ensures r.Some? ==> r == s[0]
  {
    match First(s)
    case None => None
    case Some(v) => v
  }

  /** `nonone(first(s), d)`: the first element when there is one and it is
      not None, otherwise `d`, whether `s` is empty or starts with None. */
  lemma NononeFirst<T>(s: seq<Option<T>>, d: T)
    ensures |s| > 0 && s[0].Some? ==> Nonone(FirstItem(s), d) == s[0].value
    ensures |s| == 0 || s[0].None? ==> Nonone(FirstItem(s), d) == d
  {
  }

  /** `nonone(first([None, x]), d)` is `d`, not the first element. */
  lemma NononeFirstOfNone<T>(x: T, d: T)
    ensures Nonone(FirstItem([None, Some(x)]), d) == d
  {
  }

  /** `first(stripnone(s))` is None exactly when every element is None, and
      otherwise the value of the earliest element that is not None. */
  lemma {:induction false} FirstStripNone<T>(s: seq<Option<T>>)
    ensures First(StripNone(s)).None? <==> forall i :: 0 <= i < |s| ==> s[i].None?
    ensures First(StripNone(s)).Some? ==>
      exists k :: 0 <= k < |s| && s[k] == First(StripNone(s)) && forall i :: 0 <= i < k ==> s[i].None?
  {
    if |s| > 0 {
      FirstStripNone(s[1..]);
      if s[0].None? {
        var r := First(StripNone(s));
        assert r == First(StripNone(s[1..]));
        if r.Some? {
          var k :| 0 <= k < |s[1..]| && s[1..][k] == r && forall i :: 0 <= i < k ==> s[1..][i].None?;
          assert s[k + 1] == r;
          assert forall i :: 1 <= i < k + 1 ==> s[i] == s[1..][i - 1];
        }
      } else {
        assert s[0] == First(StripNone(s));
      }
    }
  }

  datatype ValueError = EmptyIterable

  /** `allsame`: an empty sequence is a ValueError, otherwise whether every
      element equals the first. */
  function AllSame<T(==)>(s: seq<T>): (r: Result<bool, ValueError>)
    ensures r.Err? <==> |s| == 0
    ensures r.Ok? ==> (r.value <==> forall i :: 0 <= i < |s| ==> s[i] == s[0])
  {
    if |s| == 0 then Err(EmptyIterable) else Ok(AllEqual(s[1..], s[0]))
  }

  function AllEqual<T(==)>(s: seq<T>, x: T): (b: bool)
    ensures b <==> forall i :: 0 <= i < |s| ==> s[i] == x
  {
    |s| == 0 || (s[0] == x && AllEqual(s[1..], x))
  }

  /** When `allsame` holds, any two elements are equal. */
  lemma AllSamePairwise<T>(s: seq<T>)
    requires AllSame(s) == Ok(true)
    ensures forall i, j :: 0 <= i < |s| && 0 <= j < |s| ==> s[i] == s[j]
  {
  }

  // ---- flatten ----

  function Concat<T>(xss: seq<seq<T>>): (r: seq<T>)
  {
    if |xss| == 0 then [] else xss[0] + Concat(xss[1..])
  }

  function TotalLength<T>(xss: seq<seq<T>>): nat {
    if |xss| == 0 then 0 else |xss[0]| + TotalLength(xss[1..])
  }

  lemma {:induction false} ConcatLength<T>(xss: seq<seq<T>>)
    ensures |Concat(xss)| == TotalLength(xss)
  {
    if |xss| > 0 {
      ConcatLength(xss[1..]);
    }
  }

  lemma {:induction false} ConcatAppend<T>(a: seq<seq<T>>, b: seq<seq<T>>)
    ensures Concat(a + b) == Concat(a) + Concat(b)
  {
    if |a| > 0 {
      assert (a + b)[1..] == a[1..] + b;
      ConcatAppend(a[1..], b);
    } else {
      assert a + b == b;
    }
  }

  /** `flatten`: the start items, then the items of every sequence, in
      order, exactly as if the start items were the first sequence. */
  function Flatten<T>(xss: seq<seq<T>>, startWith: seq<T>): (r: seq<T>)
    ensures r == Concat([startWith] + xss)
  {
    assert ([startWith] + xss)[1..] == xss;
    startWith + Concat(xss)
  }

  /** The length of a flattening is the sum of the lengths. */
  lemma FlattenLength<T>(xss: seq<seq<T>>, startWith: seq<T>)
    ensures |Flatten(xss, startWith)| == |startWith| + TotalLength(xss)
  {
    ConcatLength(xss);
  }

  // ---- dedupe ----

  /** The index of the first occurrence of `x` in `s`. */
  function FirstIndex<T(==)>(s: seq<T>, x: T): (i: nat)
    requires x in s
    ensures i < |s| && s[i] == x && x !in s[..i]
  {
    if s[0] == x then 0 else 1 + FirstIndex(s[1..], x)
  }

  lemma {:induction false} FirstIndexOfPrefix<T>(s: seq<T>, x: T, n: nat)
    requires n <= |s| && x in s[..n]
    ensures FirstIndex(s, x) == FirstIndex(s[..n], x)
    decreases n
  {
    assert s[..n][0] == s[0];
    if s[0] != x {
      var t := s[..n];
      assert t[1..] == s[1..][..n - 1];
      assert x in t[1..];
      FirstIndexOfPrefix(s[1..], x, n - 1);
    }
  }

  predicate NoDuplicates<T(==)>(s: seq<T>) {
    forall i, j :: 0 <= i < j < |s| ==> s[i] != s[j]
  }

  /** The reference result of `dedupe`: each element once, at the position
      of its first occurrence. */
  function Deduped<T(==)>(s: seq<T>): (r: seq<T>)
    ensures NoDuplicates(r)
    ensures forall i :: 0 <= i < |r| ==> r[i] in s
    ensures forall i :: 0 <= i < |s| ==> s[i] in r
    ensures forall i, j :: 0 <= i < j < |r| ==> FirstIndex(s, r[i]) < FirstIndex(s, r[j])
  {
    if |s| == 0 then []
    else
      var init := s[..|s| - 1];
      var last := s[|s| - 1];
      var d := Deduped(init);
      assert s == init + [last];
      forall x | x in init
        ensures FirstIndex(s, x) == FirstIndex(init, x)
      {
        FirstIndexOfPrefix(s, x, |s| - 1);
      }
      if last in d then d
      else
        assert FirstIndex(s, last) == |s| - 1;
        d + [last]
  }

  /** `dedupe`: a single pass that keeps an element only the first time it is seen. */
  method Dedupe<T(==)>(s: seq<T>) returns (result: seq<T>)
    ensures result == Deduped(s)
    ensures NoDuplicates(result)
    ensures forall i :: 0 <= i < |result| ==> result[i] in s
    ensures forall i :: 0 <= i < |s| ==> s[i] in result
  {
    result := [];
    var seen: set<T> := {};
    var i := 0;
    while i < |s|
      invariant 0 <= i <= |s|
      invariant result == Deduped(s[..i])
      invariant forall x :: x in seen <==> x in result
    {
      assert s[..i + 1][..i] == s[..i];
      if s[i] !in seen {
        seen := seen + {s[i]};
        result := result + [s[i]];
      }
      i := i + 1;
    }
    assert s[..i] == s;
  }

  // ---- extract ----

  /** The items of `s` whose predicate value is `keep`, in order. */
  function FilterBy<T>(p: T -> bool, s: seq<T>, keep: bool): (r: seq<T>)
    ensures |r| <= |s|
    ensures forall i :: 0 <= i < |r| ==> p(r[i]) == keep
  {
    if |s| == 0 then []
    else if p(s[|s| - 1]) == keep then FilterBy(p, s[..|s| - 1], keep) + [s[|s| - 1]]
    else FilterBy(p, s[..|s| - 1], keep)
  }

  /** The two filters split a sequence: no item is lost or duplicated. */
  lemma {:induction false} FilterPartition<T>(p: T -> bool, s: seq<T>)
    ensures |FilterBy(p, s, true)| + |FilterBy(p, s, false)| == |s|
    ensures multiset(FilterBy(p, s, true)) + multiset(FilterBy(p, s, false)) == multiset(s)
  {
    if |s| > 0 {
      var init := s[..|s| - 1];
      FilterPartition(p, init);
      assert s == init + [s[|s| - 1]];
    }
  }

  /** `extract`: the items satisfying the predicate (the wheat) and the
      others (the shaft), each in their original order. */
  method Extract<T>(p: T -> bool, s: seq<T>) returns (wheat: seq<T>, shaft: seq<T>)
    ensures wheat == FilterBy(p, s, true)
    ensures shaft == FilterBy(p, s, false)
    ensures |wheat| + |shaft| == |s|
    ensures multiset(wheat) + multiset(shaft) == multiset(s)
  {
    wheat, shaft := [], [];
    var i := 0;
    while i < |s|
      invariant 0 <= i <= |s|
      invariant wheat == FilterBy(p, s[..i], true)
      invariant shaft == FilterBy(p, s[..i], false)
    {
      assert s[..i + 1][..i] == s[..i];
      if p(s[i]) {
        wheat := wheat + [s[i]];
      } else {
        shaft := shaft + [s[i]];
      }
      i := i + 1;
    }
    assert s[..i] == s;
    FilterPartition(p, s);
  }
}
