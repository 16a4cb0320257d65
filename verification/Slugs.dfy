/** Workspace slugs: their format, how one is made from a name, and the first free one of a family. */
module Slugs {
  import opened Base
  import opened Decimal

  const MIN_LENGTH: nat := 3
  const MAX_LENGTH: nat := 32

  /** `MAX_LENGTH` less a hyphen and three digits. */
  const GENERATED_LENGTH: nat := 28

  const FALLBACK: string := "workspace"

  datatype SlugError = Required | ValueTooLong | ValueTooShort | InvalidFormat

  predicate Letter(c: char) {
    'a' <= c <= 'z' || IsDigit(c)
  }

  function Validate(slug: string): Option<SlugError> {
    if slug == [] then Some(Required)
    else if |slug| > MAX_LENGTH then Some(ValueTooLong)
    else if |slug| < MIN_LENGTH then Some(ValueTooShort)
    else if (exists c | c in slug :: !Letter(c) && c != '-') || slug[0] == '-' || slug[|slug| - 1] == '-'
        then Some(InvalidFormat)
    else None
  }

  /** A slug is valid exactly when it has 3 to 32 characters, each a lower-case letter, a digit or, between two others,
      a hyphen. */
  lemma ValidIs(slug: string)
    ensures Validate(slug).None?
       <==> && 3 <= |slug| <= 32
            && forall i | 0 <= i < |slug| ::
                 || 'a' <= slug[i] <= 'z' || '0' <= slug[i] <= '9'
                 || (slug[i] == '-' && 0 < i < |slug| - 1)
    ensures Validate(slug) == Some(Required) <==> |slug| == 0
    ensures Validate(slug) == Some(ValueTooShort) <==> 0 < |slug| < 3
    ensures Validate(slug) == Some(ValueTooLong) <==> |slug| > 32
  {
    forall i | 0 <= i < |slug| ensures slug[i] in slug {}
    if Validate(slug) == Some(InvalidFormat) && slug[0] != '-' && slug[|slug| - 1] != '-' {
      var c :| c in slug && !Letter(c) && c != '-';
      var i :| 0 <= i < |slug| && slug[i] == c;
    }
  }

  // ---- From a name ----

  function Lower(c: char): char {
    if 'A' <= c <= 'Z' then (c as int - 'A' as int + 'a' as int) as char else c
  }

  /** One more character of the name: a letter is kept, anything else is a hyphen, but not first and not
      twice in a row. */
  function Add(slug: string, c: char): string {
    if Letter(Lower(c)) then slug + [Lower(c)]
    else if slug != [] && slug[|slug| - 1] != '-' then slug + "-"
    else slug
  }

  function Hyphenated(ascii: string): string {
    if ascii == [] then [] else Add(Hyphenated(ascii[..|ascii| - 1]), ascii[|ascii| - 1])
  }

  function TrimEnd(slug: string): string {
    if slug != [] && slug[|slug| - 1] == '-' then TrimEnd(slug[..|slug| - 1]) else slug
  }

  /** The slug of a name already transliterated to ASCII. */
  function FromName(ascii: string): string {
    var hyphenated := Hyphenated(ascii);
    var cut := if |hyphenated| > GENERATED_LENGTH then hyphenated[..GENERATED_LENGTH] else hyphenated;
    var slug := TrimEnd(cut);
    if slug == [] then FALLBACK
    else if |slug| < MIN_LENGTH then slug + "-" + FALLBACK
    else slug
  }

  method NameToSlug(ascii: string) returns (slug: string)
    ensures slug == FromName(ascii)
  {
    slug := [];
    for i := 0 to |ascii|
      invariant slug == Hyphenated(ascii[..i])
    {
      assert ascii[..i + 1][..i] == ascii[..i];
      var c := Lower(ascii[i]);
      if Letter(c) {
        slug := slug + [c];
      } else if slug != [] && slug[|slug| - 1] != '-' {
        slug := slug + "-";
      }
    }
    assert ascii[..|ascii|] == ascii;
    if |slug| > GENERATED_LENGTH {
      slug := slug[..GENERATED_LENGTH];
    }
    ghost var cut := slug;
    while slug != [] && slug[|slug| - 1] == '-'
      invariant TrimEnd(slug) == TrimEnd(cut)
      decreases |slug|
    {
      slug := slug[..|slug| - 1];
    }
    if slug == [] {
      slug := FALLBACK;
    } else if |slug| < MIN_LENGTH {
      slug := slug + "-" + FALLBACK;
    }
  }

  /** Letters with single hyphens between them, and maybe one at the end. */
  ghost predicate Hyphenation(slug: string) {
    && (forall i | 0 <= i < |slug| :: Letter(slug[i]) || slug[i] == '-')
    && (slug != [] ==> slug[0] != '-')
    && forall i | 0 < i < |slug| :: !(slug[i - 1] == '-' && slug[i] == '-')
  }

  lemma {:induction false} HyphenatedShape(ascii: string)
    ensures Hyphenation(Hyphenated(ascii))
  {
    if ascii != [] {
      HyphenatedShape(ascii[..|ascii| - 1]);
    }
  }

  lemma {:induction false} TrimEndShape(slug: string)
    requires Hyphenation(slug)
    ensures var t := TrimEnd(slug);
            && t <= slug && Hyphenation(t)
            && (t != [] ==> t[|t| - 1] != '-')
            && (t == [] <==> slug == [])
  {
    if slug != [] && slug[|slug| - 1] == '-' {
      TrimEndShape(slug[..|slug| - 1]);
    }
  }

  lemma ShapeIsValid(slug: string)
    requires Hyphenation(slug) && MIN_LENGTH <= |slug| <= MAX_LENGTH && slug[|slug| - 1] != '-'
    ensures Validate(slug).None?
  {
  }

  lemma FallbackShape(slug: string)
    requires Hyphenation(slug) && (slug != [] ==> slug[|slug| - 1] != '-')
    ensures Hyphenation(FALLBACK) && FALLBACK[|FALLBACK| - 1] != '-'
    ensures slug != [] ==> Hyphenation(slug + "-" + FALLBACK)
  {
    assert FALLBACK == ['w', 'o', 'r', 'k', 's', 'p', 'a', 'c', 'e'];
    var long := slug + "-" + FALLBACK;
    forall i | |slug| < i < |long| ensures Letter(long[i]) {
      assert long[i] == FALLBACK[i - |slug| - 1];
    }
  }

  /** A slug made from a name is valid, whatever the name, and short enough for a suffix. */
  lemma MadeSlugValid(ascii: string)
    ensures Validate(FromName(ascii)).None? && |FromName(ascii)| <= GENERATED_LENGTH
    ensures Hyphenation(FromName(ascii))
  {
    HyphenatedShape(ascii);
    var hyphenated := Hyphenated(ascii);
    var cut := if |hyphenated| > GENERATED_LENGTH then hyphenated[..GENERATED_LENGTH] else hyphenated;
    TrimEndShape(cut);
    FallbackShape(TrimEnd(cut));
    var made := FromName(ascii);
    assert made[|made| - 1] != '-';
    ShapeIsValid(made);
  }

  // ---- The first free one ----

  function Candidate(base: string, suffix: nat): string {
    base + "-" + DigitsOf(suffix)
  }

  lemma CandidatesDiffer(base: string, m: nat, n: nat)
    requires m != n
    ensures Candidate(base, m) != Candidate(base, n)
  {
    DigitsDiffer(m, n);
    assert Candidate(base, m)[|base| + 1..] == DigitsOf(m);
    assert Candidate(base, n)[|base| + 1..] == DigitsOf(n);
  }

  /** `slug` is the first of `base-from`, `base-(from+1)`, … that is not among `existing`. */
  ghost predicate FirstFree(base: string, existing: set<string>, from: nat, slug: string) {
    exists k: nat :: FirstFreeAt(base, existing, from, slug, k)
  }

  ghost predicate FirstFreeAt(base: string, existing: set<string>, from: nat, slug: string, k: nat) {
    && from <= k && slug == Candidate(base, k) && slug !in existing
    && forall j: nat | from <= j < k :: Candidate(base, j) in existing
  }

  /** `base`, or the first of `base-2`, `base-3`, … that does not exist. */
  ghost predicate IsAvailable(base: string, existing: set<string>, slug: string) {
    if base !in existing then slug == base else FirstFree(base, existing, 2, slug)
  }

  method FindAvailable(base: string, existing: set<string>) returns (slug: string)
    ensures IsAvailable(base, existing, slug)
  {
    if base !in existing {
      return base;
    }
    var suffix := 2;
    ghost var left := existing;
    while Candidate(base, suffix) in existing
      invariant suffix >= 2 && left <= existing
      invariant forall j: nat | 2 <= j < suffix :: Candidate(base, j) in existing
      invariant forall j: nat | j >= suffix && Candidate(base, j) in existing :: Candidate(base, j) in left
      decreases left
    {
      forall j: nat | j > suffix ensures Candidate(base, j) != Candidate(base, suffix) {
        CandidatesDiffer(base, j, suffix);
      }
      left := left - {Candidate(base, suffix)};
      suffix := suffix + 1;
    }
    slug := Candidate(base, suffix);
    assert FirstFreeAt(base, existing, 2, slug, suffix);
  }

  lemma AvailableUnique(base: string, existing: set<string>, a: string, b: string)
    requires IsAvailable(base, existing, a) && IsAvailable(base, existing, b)
    ensures a == b
  {
    if base in existing {
      var j: nat :| FirstFreeAt(base, existing, 2, a, j);
      var k: nat :| FirstFreeAt(base, existing, 2, b, k);
    }
  }

  /** There is always one: among one more candidate than there are slugs, some is free. */
  lemma {:induction false} AvailableFrom(base: string, existing: set<string>, left: set<string>, from: nat)
    requires left <= existing
    requires forall j: nat | j >= from && Candidate(base, j) in existing :: Candidate(base, j) in left
    ensures exists slug :: FirstFree(base, existing, from, slug)
    decreases left
  {
    var first := Candidate(base, from);
    if first in existing {
      forall j: nat | j > from ensures Candidate(base, j) != first {
        CandidatesDiffer(base, j, from);
      }
      AvailableFrom(base, existing, left - {first}, from + 1);
      var slug :| FirstFree(base, existing, from + 1, slug);
      var k: nat :| FirstFreeAt(base, existing, from + 1, slug, k);
      assert FirstFreeAt(base, existing, from, slug, k);
      assert FirstFree(base, existing, from, slug);
    } else {
      assert FirstFreeAt(base, existing, from, first, from);
      assert FirstFree(base, existing, from, first);
    }
  }

  ghost function Available(base: string, existing: set<string>): (slug: string)
    ensures IsAvailable(base, existing, slug)
  {
    if base !in existing then base
    else
      AvailableFrom(base, existing, existing, 2);
      var slug :| FirstFree(base, existing, 2, slug);
      slug
  }

  /** A numbered slug is valid exactly when it is not too long. */
  lemma CandidateValid(base: string, suffix: nat)
    requires Validate(base).None?
    ensures Validate(Candidate(base, suffix)).None? <==> |base| + 1 + |DigitsOf(suffix)| <= MAX_LENGTH
  {
    var slug := Candidate(base, suffix);
    var digits := DigitsOf(suffix);
    forall c | c in slug ensures Letter(c) || c == '-' {
      if c in digits { assert IsDigit(c); }
    }
    assert slug[|slug| - 1] == digits[|digits| - 1] && digits[|digits| - 1] in digits;
  }

  // ---- How long the first free one is ----

  /** The base and its candidates below `k`. */
  ghost function Tried(base: string, k: nat): (tried: set<string>)
    requires k >= 2
    ensures |tried| == k - 1
    ensures forall slug :: slug in tried <==> slug == base || exists j: nat :: 2 <= j < k && slug == Candidate(base, j)
  {
    if k == 2 then {base}
    else
      var rest := Tried(base, k - 1);
      NotTried(base, k - 1);
      rest + {Candidate(base, k - 1)}
  }

  lemma NotTried(base: string, k: nat)
    ensures Candidate(base, k) != base
    ensures forall j: nat | j != k :: Candidate(base, j) != Candidate(base, k)
  {
    assert |Candidate(base, k)| > |base|;
    forall j: nat | j != k ensures Candidate(base, j) != Candidate(base, k) {
      CandidatesDiffer(base, j, k);
    }
  }

  lemma {:induction false} SubsetSize(a: set<string>, b: set<string>)
    requires a <= b
    ensures |a| <= |b|
    decreases a
  {
    if a != {} {
      var x :| x in a;
      SubsetSize(a - {x}, b - {x});
    }
  }

  /** The number of the first free slug is at most one more than there are slugs of the family. */
  lemma NumberIsSmall(base: string, existing: set<string>, slug: string, k: nat)
    requires base in existing && FirstFreeAt(base, existing, 2, slug, k)
    ensures k <= |existing| + 1
  {
    SubsetSize(Tried(base, k), existing);
  }

  /** The numbers below this leave the slug at most 32 characters long. */
  function NumbersOf(base: string): nat {
    if |base| + 1 < MAX_LENGTH then Power10(MAX_LENGTH - 1 - |base|) else 0
  }

  /** One of those numbers is not in use with the base. */
  ghost predicate HasFreeNumber(base: string, existing: set<string>) {
    exists j: nat :: 2 <= j < NumbersOf(base) && Candidate(base, j) !in existing
  }

  /** A generated slug is valid exactly when its base is free or some number that leaves it at most 32 characters long
      is. */
  lemma AvailableValid(ascii: string, existing: set<string>)
    ensures var base := FromName(ascii);
            Validate(Available(base, existing)).None?
            <==> base !in existing || HasFreeNumber(base, existing)
  {
    var base := FromName(ascii);
    var slug := Available(base, existing);
    MadeSlugValid(ascii);
    if base in existing {
      var k: nat :| FirstFreeAt(base, existing, 2, slug, k);
      CandidateValid(base, k);
      DigitsBelow(k, MAX_LENGTH - 1 - |base|);
    }
  }

  /** It always is while fewer than 999 of its family exist. */
  lemma FewAreValid(ascii: string, existing: set<string>)
    requires |existing| <= 998
    ensures Validate(Available(FromName(ascii), existing)).None?
  {
    var base := FromName(ascii);
    var slug := Available(base, existing);
    MadeSlugValid(ascii);
    if base in existing {
      var k: nat :| FirstFreeAt(base, existing, 2, slug, k);
      NumberIsSmall(base, existing, slug, k);
      CandidateValid(base, k);
      DigitsBelow(k, 3);
      assert Power10(3) == 10 * (10 * (10 * Power10(0)));
    }
  }

  /** When exactly the base and its candidates below `k` exist, the next is candidate `k`. */
  lemma NextCandidate(base: string, k: nat)
    requires k >= 2
    ensures Available(base, Tried(base, k)) == Candidate(base, k)
  {
    NotTried(base, k);
    assert FirstFreeAt(base, Tried(base, k), 2, Candidate(base, k), k);
    AvailableUnique(base, Tried(base, k), Available(base, Tried(base, k)), Candidate(base, k));
  }

  // ---- A name of 28 letters ----

  function LongName(): string {
    seq(GENERATED_LENGTH, _ => 'a')
  }

  lemma {:induction false} LettersStay(s: string)
    requires forall c | c in s :: c == 'a'
    ensures Hyphenated(s) == s
  {
    if s != [] {
      assert forall i | 0 <= i < |s| :: s[i] in s;
      LettersStay(s[..|s| - 1]);
      assert s == s[..|s| - 1] + [s[|s| - 1]];
    }
  }

  lemma LongNameStays()
    ensures FromName(LongName()) == LongName()
  {
    LettersStay(LongName());
  }
}
