/** Conflict names from conflict.py: a name is "conflicted" when it starts
    with '[', at least three ASCII digits, ']' and a space, and a fresh
    conflicted name is found by trying '[000] ', '[001] ', ... in turn. */
module Conflict {
  import opened Results
  import opened Text

  /** The number of decimal digits at the start of `s`. */
  function DigitRun(s: string): (n: nat)
    ensures n <= |s|
    ensures forall i :: 0 <= i < n ==> IsDigit(s[i])
    ensures n < |s| ==> !IsDigit(s[n])
  {
    if |s| > 0 && IsDigit(s[0]) then 1 + DigitRun(s[1..]) else 0
  }

  /** `name` starts with '[', `k >= 3` digits, ']' and ' ': the prefix
      `^\[\d{3}\d*\] ` matches with `k` digits. */
  predicate PrefixWith(name: string, k: int) {
    && 3 <= k && k + 3 <= |name|
    && name[0] == '['
    && (forall i :: 1 <= i <= k ==> IsDigit(name[i]))
    && name[k + 1] == ']'
    && name[k + 2] == ' '
  }

  /** The length of the conflict prefix of `name`, if it has one. */
  function PrefixLength(name: string): (r: Option<nat>)
    ensures r.Some? ==> r.value >= 6 && PrefixWith(name, r.value - 3)
  {
    if |name| >= 1 && name[0] == '[' then
      var d := DigitRun(name[1..]);
      if d >= 3 && d + 3 <= |name| && name[d + 1] == ']' && name[d + 2] == ' ' then Some(d + 3)
      else None
    else None
  }

  /** The digit count of a matching prefix is forced: the digits stop at ']'. */
  lemma PrefixUnique(name: string, k: int)
    requires PrefixWith(name, k)
    ensures PrefixLength(name) == Some(k + 3)
  {
    var d := DigitRun(name[1..]);
  }

  /** `is_conflicted(name)`: holds exactly when the prefix pattern matches. */
  function IsConflicted(name: string): (b: bool)
    ensures b <==> exists k :: PrefixWith(name, k)
  {
    var b := PrefixLength(name).Some?;
    assert (exists k :: PrefixWith(name, k)) ==> b by {
      if exists k :: PrefixWith(name, k) {
        var k :| PrefixWith(name, k);
        PrefixUnique(name, k);
      }
    }
    b
  }

  /** `get_unconflicted_name`: removes one leading conflict prefix. */
  function Unconflict(name: string): (r: string)
    ensures !IsConflicted(name) ==> r == name
    ensures IsConflicted(name) ==> exists k :: PrefixWith(name, k) && r == name[k + 3..]
    ensures |r| <= |name| && r == name[|name| - |r|..]
  {
    match PrefixLength(name)
    case None => name
    case Some(m) => name[m..]
  }

  /** `'[%03d] %s' % (i, base)`. */
  function ConflictedName(i: nat, base: string): (r: string)
    ensures |r| >= |base| + 6
  {
    "[" + PadDecimal(i, 3) + "] " + base
  }

  /** The prefix of a conflicted name is the padded index. */
  lemma ConflictedNameParts(i: nat, base: string)
    ensures var r := ConflictedName(i, base);
      var k := |PadDecimal(i, 3)|;
      && PrefixWith(r, k)
      && r[1..k + 1] == PadDecimal(i, 3)
      && r[k + 3..] == base
  {
    var r := ConflictedName(i, base);
    var ds := PadDecimal(i, 3);
    var k := |ds|;
    assert r[1..k + 1] == ds;
    forall j | 1 <= j <= k
      ensures IsDigit(r[j])
    {
      assert r[j] == ds[j - 1];
    }
    assert r[k + 3..] == base;
  }

  /** A generated conflicted name is conflicted, and unconflicts to its base. */
  lemma ConflictedRoundTrip(i: nat, base: string)
    ensures IsConflicted(ConflictedName(i, base))
    ensures Unconflict(ConflictedName(i, base)) == base
  {
    ConflictedNameParts(i, base);
    PrefixUnique(ConflictedName(i, base), |PadDecimal(i, 3)|);
  }

  /** Different indices give different conflicted names. */
  lemma ConflictedNameInjective(i: nat, j: nat, base: string)
    requires ConflictedName(i, base) == ConflictedName(j, base)
    ensures i == j
  {
    var r := ConflictedName(i, base);
    ConflictedNameParts(i, base);
    ConflictedNameParts(j, base);
    PrefixUnique(r, |PadDecimal(i, 3)|);
    PrefixUnique(r, |PadDecimal(j, 3)|);
    PadDecimalInjective(i, j, 3);
  }

  /** A doubly prefixed name loses only its outer prefix, so what remains is
      still conflicted: `get_conflicted_name` may return a conflicted name
      whose own unconflicted form differs from the unconflicted input. */
  lemma DoublePrefixSurvives(i: nat, j: nat, base: string)
    ensures Unconflict(ConflictedName(i, ConflictedName(j, base))) == ConflictedName(j, base)
    ensures IsConflicted(Unconflict(ConflictedName(i, ConflictedName(j, base))))
    ensures Unconflict(Unconflict(ConflictedName(i, ConflictedName(j, base)))) == base
  {
    ConflictedRoundTrip(i, ConflictedName(j, base));
    ConflictedRoundTrip(j, base);
  }

  function SeqSet(s: seq<string>): set<string> {
    set x | x in s
  }

  lemma {:induction false} SeqSetSize(s: seq<string>)
    ensures |SeqSet(s)| <= |s|
  {
    if |s| > 0 {
      SeqSetSize(s[1..]);
      assert SeqSet(s) == SeqSet(s[1..]) + {s[0]};
    }
  }

  /** The first `i` conflicted names of `base`. */
  function Candidates(i: nat, base: string): set<string> {
    if i == 0 then {} else Candidates(i - 1, base) + {ConflictedName(i - 1, base)}
  }

  lemma {:induction false} CandidatesMembers(i: nat, base: string, x: string)
    requires x in Candidates(i, base)
    ensures exists j :: 0 <= j < i && x == ConflictedName(j, base)
  {
    if x != ConflictedName(i - 1, base) {
      CandidatesMembers(i - 1, base, x);
    }
  }

  lemma {:induction false} CandidatesSize(i: nat, base: string)
    ensures |Candidates(i, base)| == i
  {
    if i > 0 {
      CandidatesSize(i - 1, base);
      if ConflictedName(i - 1, base) in Candidates(i - 1, base) {
        CandidatesMembers(i - 1, base, ConflictedName(i - 1, base));
        var j :| 0 <= j < i - 1 && ConflictedName(i - 1, base) == ConflictedName(j, base);
        ConflictedNameInjective(i - 1, j, base);
      }
    }
  }

  /** At most `|others|` distinct conflicted names can all be taken. */
  lemma CandidatesBound(i: nat, base: string, others: seq<string>)
    requires forall j :: 0 <= j < i ==> ConflictedName(j, base) in others
    ensures i <= |others|
  {
    forall x | x in Candidates(i, base)
      ensures x in SeqSet(others)
    {
      CandidatesMembers(i, base, x);
    }
    CandidatesSize(i, base);
    SeqSetSize(others);
    SubsetSize(Candidates(i, base), SeqSet(others));
  }

  lemma {:induction false} SubsetSize(a: set<string>, b: set<string>)
    requires a <= b
    ensures |a| <= |b|
  {
    if a != {} {
      var x :| x in a;
      SubsetSize(a - {x}, b - {x});
    }
  }

  /** The search loop of `get_conflicted_name`: the first index whose
      conflicted name is free. */
  method FirstFree(others: seq<string>, base: string) returns (i: nat)
    ensures i <= |others|
    ensures ConflictedName(i, base) !in others
    ensures forall j :: 0 <= j < i ==> ConflictedName(j, base) in others
  {
    i := 0;
    while ConflictedName(i, base) in others
      invariant i <= |others|
      invariant forall j :: 0 <= j < i ==> ConflictedName(j, base) in others
      decreases |others| - i
    {
      CandidatesBound(i + 1, base, others);
      i := i + 1;
    }
  }

  /** `get_conflicted_name`: the unconflicted name if it is free, otherwise
      the first free conflicted name, found within `|others| + 1` tries. */
  method GetConflictedName(others: seq<string>, name: string) returns (r: string, tries: nat)
    ensures r !in others
    ensures Unconflict(name) !in others ==> r == Unconflict(name) && tries == 0
    ensures Unconflict(name) in others ==>
      && 1 <= tries <= |others| + 1
      && r == ConflictedName(tries - 1, Unconflict(name))
      && forall j :: 0 <= j < tries - 1 ==> ConflictedName(j, Unconflict(name)) in others
    ensures Unconflict(name) in others ==> Unconflict(r) == Unconflict(name)
    ensures !IsConflicted(Unconflict(name)) ==> Unconflict(r) == Unconflict(name)
  {
    r, tries := FreeNameFor(others, Unconflict(name));
  }

  /** The name `get_conflicted_name` settles on for the unconflicted name `base`. */
  method FreeNameFor(others: seq<string>, base: string) returns (r: string, tries: nat)
    ensures r !in others
    ensures base !in others ==> r == base && tries == 0
    ensures base in others ==>
      && 1 <= tries <= |others| + 1
      && r == ConflictedName(tries - 1, base)
      && forall j :: 0 <= j < tries - 1 ==> ConflictedName(j, base) in others
    ensures base in others ==> Unconflict(r) == base
    ensures !IsConflicted(base) ==> Unconflict(r) == base
  {
    if base !in others {
      r, tries := base, 0;
    } else {
      var i := FirstFree(others, base);
      tries := i + 1;
      r := ConflictedName(tries - 1, base);
      ConflictedRoundTrip(i, base);
      FirstFreeBound(others, base, i);
    }
  }

  /** The search ends within `|others| + 1` tries. */
  lemma FirstFreeBound(others: seq<string>, base: string, i: nat)
    requires forall j :: 0 <= j < i ==> ConflictedName(j, base) in others
    ensures i + 1 <= |others| + 1
  {
    CandidatesBound(i, base, others);
  }
}
