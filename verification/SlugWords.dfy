/** What the slug of a name reads like: the words of the name in lower case with one hyphen between them, cut. */
module SlugWords {
  import opened Slugs

  /** An ASCII letter or digit. */
  predicate Alnum(c: char) {
    'a' <= c <= 'z' || 'A' <= c <= 'Z' || '0' <= c <= '9'
  }

  /** How many of the first characters are letters or digits. */
  function RunLength(s: string): (k: nat)
    ensures k <= |s|
    ensures forall i | 0 <= i < k :: Alnum(s[i])
    ensures k < |s| ==> !Alnum(s[k])
  {
    if s == [] || !Alnum(s[0]) then 0 else 1 + RunLength(s[1..])
  }

  /** The maximal runs of letters and digits, in order. */
  function Words(s: string): seq<string> {
    if s == [] then []
    else if !Alnum(s[0]) then Words(s[1..])
    else [s[..RunLength(s)]] + Words(s[RunLength(s)..])
  }

  function LowerCase(s: string): string {
    seq(|s|, i requires 0 <= i < |s| => if 'A' <= s[i] <= 'Z' then s[i] + ('a' - 'A') else s[i])
  }

  /** The words in lower case, with one hyphen between any two. */
  function Hyphened(words: seq<string>): string {
    if words == [] then []
    else if |words| == 1 then LowerCase(words[0])
    else LowerCase(words[0]) + "-" + Hyphened(words[1..])
  }

  // ---- Character by character ----

  function AddAll(slug: string, s: string): string
    decreases |s|
  {
    if s == [] then slug else AddAll(Add(slug, s[0]), s[1..])
  }

  lemma {:induction false} AddAllSnoc(slug: string, s: string)
    requires s != []
    ensures AddAll(slug, s) == Add(AddAll(slug, s[..|s| - 1]), s[|s| - 1])
    decreases |s|
  {
    if |s| == 1 {
      assert s[..0] == [] && s[1..] == [];
    } else {
      AddAllSnoc(Add(slug, s[0]), s[1..]);
      assert s[1..][..|s| - 2] == s[..|s| - 1][1..];
    }
  }

  lemma {:induction false} HyphenatedIsAddAll(s: string)
    ensures Hyphenated(s) == AddAll([], s)
  {
    if s != [] {
      HyphenatedIsAddAll(s[..|s| - 1]);
      AddAllSnoc([], s);
    }
  }

  lemma {:induction false} AddRun(slug: string, run: string, rest: string)
    requires forall i | 0 <= i < |run| :: Alnum(run[i])
    ensures AddAll(slug, run + rest) == AddAll(slug + LowerCase(run), rest)
    decreases |run|
  {
    if run == [] {
      assert run + rest == rest && slug + LowerCase(run) == slug;
    } else {
      assert (run + rest)[1..] == run[1..] + rest;
      AddRun(Add(slug, run[0]), run[1..], rest);
      assert slug + LowerCase(run) == Add(slug, run[0]) + LowerCase(run[1..]);
    }
  }

  /** A word may begin: nothing is there, or a hyphen. */
  predicate AtBreak(slug: string) {
    slug == [] || slug[|slug| - 1] == '-'
  }

  /** The hyphen for what follows the last word. */
  function Tail(s: string): string {
    if Words(s) != [] && !Alnum(s[|s| - 1]) then "-" else []
  }

  lemma {:induction false} NoWords(s: string)
    requires Words(s) == [] && s != []
    ensures !Alnum(s[|s| - 1])
  {
    if |s| > 1 { NoWords(s[1..]); }
  }

  lemma AfterWord(run: string, rest: string)
    requires run != [] && rest != [] && !Alnum(rest[0])
    requires forall i | 0 <= i < |run| :: Alnum(run[i])
    ensures Words(run + rest) == [run] + Words(rest[1..])
    ensures Hyphened(Words(run + rest)) + Tail(run + rest)
         == LowerCase(run) + "-" + (Hyphened(Words(rest[1..])) + Tail(rest[1..]))
  {
    var s := run + rest;
    RunIs(run, rest);
    assert s[..|run|] == run && s[|run|..] == rest;
    assert Words(s) == [run] + Words(rest[1..]);
    if Words(rest[1..]) == [] {
      if rest[1..] != [] { NoWords(rest[1..]); }
      assert Tail(s) == "-";
    } else {
      assert ([run] + Words(rest[1..]))[1..] == Words(rest[1..]);
    }
  }

  lemma {:induction false} RunIs(run: string, rest: string)
    requires forall i | 0 <= i < |run| :: Alnum(run[i])
    requires rest == [] || !Alnum(rest[0])
    ensures RunLength(run + rest) == |run|
  {
    if run != [] {
      assert (run + rest)[1..] == run[1..] + rest;
      RunIs(run[1..], rest);
    } else {
      assert run + rest == rest;
    }
  }

  lemma {:induction false} LowerEnds(run: string)
    requires run != [] && forall i | 0 <= i < |run| :: Alnum(run[i])
    ensures LowerCase(run)[|run| - 1] != '-'
  {
  }

  /** Adding the text appends its words, with the hyphens that separate and follow them. */
  ghost predicate AddsWords(slug: string, s: string) {
    AddAll(slug, s) == slug + (Hyphened(Words(s)) + Tail(s))
  }

  lemma SkipOne(slug: string, s: string)
    requires AtBreak(slug) && s != [] && !Alnum(s[0]) && AddsWords(slug, s[1..])
    ensures AddsWords(slug, s)
  {
    assert Words(s) == Words(s[1..]);
    if Words(s) != [] { assert s[|s| - 1] == s[1..][|s| - 2]; }
  }

  /** A word at the end of the text. */
  lemma AddLast(slug: string, s: string)
    requires s != [] && forall i | 0 <= i < |s| :: Alnum(s[i])
    ensures AddsWords(slug, s)
  {
    assert s + [] == s;
    AddRun(slug, s, []);
    RunIs(s, []);
    assert s[..|s|] == s && s[|s|..] == [];
    assert Words(s) == [s] + Words([]) == [s];
    assert LowerCase(s) + [] == LowerCase(s);
  }

  /** A word with more after it. */
  lemma AddWord(slug: string, run: string, rest: string)
    requires run != [] && rest != [] && !Alnum(rest[0])
    requires forall i | 0 <= i < |run| :: Alnum(run[i])
    ensures AddAll(slug, run + rest) == AddAll(slug + LowerCase(run) + "-", rest[1..])
  {
    var before := slug + LowerCase(run);
    AddRun(slug, run, rest);
    LowerEnds(run);
    assert before[|before| - 1] == LowerCase(run)[|run| - 1];
    assert Add(before, rest[0]) == before + "-";
  }

  lemma AddNothing(slug: string)
    ensures AddsWords(slug, [])
  {
    assert slug + ([] + []) == slug;
  }

  /** A word, the hyphen after it, and the rest. */
  lemma WordAndRest(slug: string, run: string, rest: string)
    requires run != [] && rest != [] && !Alnum(rest[0])
    requires forall i | 0 <= i < |run| :: Alnum(run[i])
    requires AddsWords(slug + LowerCase(run) + "-", rest[1..])
    ensures AddsWords(slug, run + rest)
  {
    var word, more := LowerCase(run), Hyphened(Words(rest[1..])) + Tail(rest[1..]);
    AddWord(slug, run, rest);
    AfterWord(run, rest);
    calc {
      AddAll(slug, run + rest);
      slug + word + "-" + more;
      { Regroup(slug, word, "-"); Regroup(slug, word + "-", more); }
      slug + (word + "-" + more);
    }
  }

  /** The first word of a text that goes on after it. */
  lemma SplitWord(s: string) returns (run: string, rest: string, more: string)
    requires s != [] && Alnum(s[0]) && RunLength(s) < |s|
    ensures run != [] && (forall i | 0 <= i < |run| :: Alnum(run[i]))
    ensures rest != [] && !Alnum(rest[0]) && more == rest[1..]
    ensures s == run + rest && |more| < |s|
  {
    run, rest, more := s[..RunLength(s)], s[RunLength(s)..], s[RunLength(s) + 1..];
  }

  lemma {:induction false} AddWords(slug: string, s: string)
    requires AtBreak(slug)
    ensures AddsWords(slug, s)
    decreases |s|
  {
    if s == [] {
      AddNothing(slug);
    } else if !Alnum(s[0]) {
      AddWords(slug, s[1..]);
      SkipOne(slug, s);
    } else if RunLength(s) == |s| {
      AddLast(slug, s);
    } else {
      var run, rest, more := SplitWord(s);
      AddWords(slug + LowerCase(run) + "-", more);
      WordAndRest(slug, run, rest);
    }
  }

  lemma Regroup(a: string, b: string, c: string)
    ensures a + b + c == a + (b + c)
  {
  }

  lemma HyphenatedIs(s: string)
    ensures Hyphenated(s) == Hyphened(Words(s)) + Tail(s)
  {
    HyphenatedIsAddAll(s);
    AddWords([], s);
    var text := Hyphened(Words(s)) + Tail(s);
    assert [] + text == text;
  }

  // ---- The whole slug ----

  /** At most 28 characters, not ending on a hyphen. */
  function Shortened(text: string): string {
    var cut := if |text| > 28 then text[..28] else text;
    if cut != [] && cut[|cut| - 1] == '-' then cut[..|cut| - 1] else cut
  }

  lemma TrimsOnce(cut: string)
    requires Hyphenation(cut)
    ensures TrimEnd(cut) == if cut != [] && cut[|cut| - 1] == '-' then cut[..|cut| - 1] else cut
  {
    if |cut| > 1 && cut[|cut| - 1] == '-' { assert cut[|cut| - 2] != '-'; }
  }

  lemma {:induction false} HyphenedEnds(s: string)
    requires Words(s) != []
    ensures var text := Hyphened(Words(s)); text != [] && text[|text| - 1] != '-'
    decreases |s|
  {
    if !Alnum(s[0]) {
      HyphenedEnds(s[1..]);
    } else {
      var run, rest := s[..RunLength(s)], s[RunLength(s)..];
      assert run != [];
      LowerEnds(run);
      assert Words(s)[1..] == Words(rest);
      if Words(rest) != [] { HyphenedEnds(rest); }
    }
  }

  lemma TailIsTrimmed(text: string, tail: string)
    requires text != [] ==> text[|text| - 1] != '-'
    requires tail == [] || (tail == "-" && text != [])
    requires Hyphenation(text + tail)
    ensures var hyphenated := text + tail;
            var cut := if |hyphenated| > 28 then hyphenated[..28] else hyphenated;
            TrimEnd(cut) == Shortened(text)
  {
    var hyphenated := text + tail;
    var cut := if |hyphenated| > 28 then hyphenated[..28] else hyphenated;
    TrimsOnce(cut);
    if |text| >= 28 {
      assert cut == text[..28];
    } else if tail == [] {
      assert cut == text;
    } else {
      assert cut[..|cut| - 1] == text;
    }
  }

  /** The slug of a name is its words in lower case, joined by single hyphens and shortened; of a name without any
      letter or digit it is the fallback, which is also added when there are fewer than three characters. */
  lemma SlugIs(ascii: string)
    ensures var slug := Shortened(Hyphened(Words(ascii)));
            FromName(ascii)
            == if slug == [] then "workspace" else if |slug| < 3 then slug + "-" + "workspace" else slug
  {
    HyphenatedIs(ascii);
    HyphenatedShape(ascii);
    if Words(ascii) != [] { HyphenedEnds(ascii); }
    TailIsTrimmed(Hyphened(Words(ascii)), Tail(ascii));
  }

  // ---- No letter is lost ----

  /** The letters and digits of a text, in order, in lower case. */
  function Spelled(s: string): string {
    if s == [] then []
    else
      var rest := Spelled(s[..|s| - 1]);
      if Letter(Lower(s[|s| - 1])) then rest + [Lower(s[|s| - 1])] else rest
  }

  lemma {:induction false} HyphenatedSpells(ascii: string)
    ensures Spelled(Hyphenated(ascii)) == Spelled(ascii)
  {
    if ascii != [] {
      var before, c := Hyphenated(ascii[..|ascii| - 1]), ascii[|ascii| - 1];
      HyphenatedSpells(ascii[..|ascii| - 1]);
      var after := Add(before, c);
      if after != before {
        assert after[..|after| - 1] == before;
      }
    }
  }

  lemma {:induction false} TrimEndSpells(slug: string)
    ensures Spelled(TrimEnd(slug)) == Spelled(slug)
  {
    if slug != [] && slug[|slug| - 1] == '-' { TrimEndSpells(slug[..|slug| - 1]); }
  }

  lemma {:induction false} CutSpells(s: string, n: nat)
    requires n <= |s|
    ensures Spelled(s[..n]) <= Spelled(s)
    decreases |s|
  {
    if n < |s| {
      CutSpells(s[..|s| - 1], n);
      assert s[..|s| - 1][..n] == s[..n];
    } else {
      assert s[..n] == s;
    }
  }

  /** A text that starts with a letter spells something. */
  lemma {:induction false} LettersSpell(s: string)
    requires s != [] && Letter(s[0])
    ensures Spelled(s) != []
  {
    if |s| > 1 { LettersSpell(s[..|s| - 1]); }
  }

  lemma TextSpells(ascii: string)
    ensures Spelled(Hyphened(Words(ascii))) == Spelled(ascii)
  {
    HyphenatedSpells(ascii);
    HyphenatedIs(ascii);
    var text := Hyphened(Words(ascii));
    if Tail(ascii) == "-" {
      assert (text + "-")[..|text|] == text;
    } else {
      assert text + [] == text;
    }
  }

  lemma {:induction false} HyphenedStarts(s: string)
    requires Words(s) != []
    ensures var text := Hyphened(Words(s)); text != [] && Letter(text[0])
    decreases |s|
  {
    if !Alnum(s[0]) { HyphenedStarts(s[1..]); }
  }

  lemma ShortenedSpells(text: string)
    requires text != [] && Letter(text[0]) && text[|text| - 1] != '-'
    ensures var made := Shortened(text);
            && made != [] && Spelled(made) != [] && Spelled(made) <= Spelled(text)
            && (|text| <= 28 ==> made == text)
  {
    var made := Shortened(text);
    CutSpells(text, |made|);
    assert text[..|made|] == made;
    LettersSpell(made);
  }

  /** The slug spells the letters and digits of the name, in order: all of them when its words fit into 28 characters,
      and before the fallback when they are too few. */
  lemma MadeSlugSpells(ascii: string)
    ensures var spelled, slug := Spelled(ascii), FromName(ascii);
            && (spelled == [] ==> slug == FALLBACK)
            && (spelled != [] ==> exists made :: made != [] && Spelled(made) <= spelled
                                     && slug == (if |made| < 3 then made + "-" + FALLBACK else made)
                                     && (|Hyphened(Words(ascii))| <= 28 ==> Spelled(made) == spelled))
  {
    var text := Hyphened(Words(ascii));
    SlugIs(ascii);
    TextSpells(ascii);
    if Words(ascii) == [] {
      assert Spelled(text) == [];
    } else {
      HyphenedEnds(ascii);
      HyphenedStarts(ascii);
      ShortenedSpells(text);
      var made := Shortened(text);
      assert made != [] && Spelled(made) <= Spelled(ascii);
    }
  }
}
