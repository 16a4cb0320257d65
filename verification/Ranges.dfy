/** The byte ranges a client must show it has when a file with its hash is stored already: a few random
    windows, sorted and merged. */
module Ranges {
  import opened Base

  datatype VerifyRange = VerifyRange(start: int, end: int) {
    predicate Holds(p: int) {
      start <= p < end
    }
  }

  ghost predicate Covered(ranges: seq<VerifyRange>, p: int) {
    exists r :: r in ranges && r.Holds(p)
  }

  function TotalLength(ranges: seq<VerifyRange>): int {
    if ranges == [] then 0
        else TotalLength(ranges[..|ranges| - 1]) + ranges[|ranges| - 1].end - ranges[|ranges| - 1].start
  }

  ghost predicate SortedByStart(ranges: seq<VerifyRange>) {
    forall i, j | 0 <= i < j < |ranges| :: ranges[i].start <= ranges[j].start
  }

  /** Each range ends before the next one starts. */
  ghost predicate Apart(ranges: seq<VerifyRange>) {
    forall i, j | 0 <= i < j < |ranges| :: ranges[i].end < ranges[j].start
  }

  // ---- Sorting ----

  function InsertByStart(r: VerifyRange, sorted: seq<VerifyRange>): (s: seq<VerifyRange>)
    requires SortedByStart(sorted)
    ensures SortedByStart(s) && |s| == |sorted| + 1
    ensures forall x :: x in s <==> x == r || x in sorted
  {
    if sorted == [] then [r]
    else if r.start <= sorted[0].start then [r] + sorted
    else
      var rest := InsertByStart(r, sorted[1..]);
      FirstLowest(sorted[0], r, sorted[1..], rest);
      [sorted[0]] + rest
  }

  lemma FirstLowest(first: VerifyRange, r: VerifyRange, tail: seq<VerifyRange>, rest: seq<VerifyRange>)
    requires SortedByStart([first] + tail) && first.start <= r.start
    requires forall x | x in rest :: x == r || x in tail
    ensures forall i | 0 <= i < |rest| :: first.start <= rest[i].start
  {
    forall i | 0 <= i < |rest| ensures first.start <= rest[i].start {
      assert rest[i] in rest;
      if rest[i] != r {
        var k := IndexOf(tail, rest[i]);
        assert ([first] + tail)[0].start <= ([first] + tail)[k + 1].start;
      }
    }
  }

  function SortByStart(ranges: seq<VerifyRange>): (s: seq<VerifyRange>)
    ensures SortedByStart(s) && |s| == |ranges|
    ensures forall x :: x in s <==> x in ranges
  {
    if ranges == [] then [] else InsertByStart(ranges[0], SortByStart(ranges[1..]))
  }

  // ---- Merging ----

  ghost predicate Inside(ranges: seq<VerifyRange>, fileSize: int) {
    forall i | 0 <= i < |ranges| :: 0 <= ranges[i].start <= ranges[i].end <= fileSize
  }

  ghost predicate SameCover(a: seq<VerifyRange>, b: seq<VerifyRange>) {
    forall p :: Covered(a, p) <==> Covered(b, p)
  }

  lemma TotalLengthSnoc(ranges: seq<VerifyRange>, r: VerifyRange)
    ensures TotalLength(ranges + [r]) == TotalLength(ranges) + r.end - r.start
  {
    assert (ranges + [r])[..|ranges|] == ranges;
  }

  lemma CoveredSnoc(ranges: seq<VerifyRange>, r: VerifyRange, p: int)
    ensures Covered(ranges + [r], p) <==> Covered(ranges, p) || r.Holds(p)
  {
    if Covered(ranges, p) {
      var x :| x in ranges && x.Holds(p);
      assert x in ranges + [r];
    }
    if r.Holds(p) { assert r in ranges + [r]; }
  }

  /** Growing the last range by one that touches it covers what the two cover. */
  lemma GrownCover(done: seq<VerifyRange>, merged: seq<VerifyRange>, current: VerifyRange, next: VerifyRange)
    requires SameCover(merged + [current], done)
    requires current.start <= next.start <= current.end && next.start <= next.end
    ensures SameCover(merged + [current.(end := Max(current.end, next.end))], done + [next])
  {
    var grown := current.(end := Max(current.end, next.end));
    forall p ensures Covered(merged + [grown], p) <==> Covered(done + [next], p) {
      CoveredSnoc(merged, current, p);
      CoveredSnoc(merged, grown, p);
      CoveredSnoc(done, next, p);
      assert Covered(merged + [current], p) <==> Covered(done, p);
    }
  }

  lemma AddedCover(done: seq<VerifyRange>, merged: seq<VerifyRange>, next: VerifyRange)
    requires SameCover(merged, done)
    ensures SameCover(merged + [next], done + [next])
  {
    forall p ensures Covered(merged + [next], p) <==> Covered(done + [next], p) {
      CoveredSnoc(merged, next, p);
      CoveredSnoc(done, next, p);
    }
  }

  lemma GrownApart(merged: seq<VerifyRange>, current: VerifyRange, grown: VerifyRange)
    requires Apart(merged + [current]) && grown.start == current.start
    ensures Apart(merged + [grown])
  {
    forall i, j | 0 <= i < j < |merged| + 1 ensures (merged + [grown])[i].end < (merged + [grown])[j].start {
      assert (merged + [current])[i].end < (merged + [current])[j].start;
    }
  }

  lemma AddedApart(merged: seq<VerifyRange>, current: VerifyRange, next: VerifyRange, fileSize: int)
    requires Apart(merged + [current]) && Inside(merged + [current], fileSize) && current.end < next.start
    ensures Apart(merged + [current] + [next])
  {
    var all := merged + [current];
    forall i | 0 <= i < |all| ensures all[i].end < next.start {
      if i < |merged| {
        assert all[i].end < all[|merged|].start && all[|merged|].start <= all[|merged|].end;
      }
    }
  }

  // ---- The ranges ----

  function Windows(starts: seq<int>, size: int): (windows: seq<VerifyRange>)
    ensures |windows| == |starts|
    ensures forall i | 0 <= i < |starts| :: windows[i] == VerifyRange(starts[i], starts[i] + size)
  {
    seq(|starts|, i requires 0 <= i < |starts| => VerifyRange(starts[i], starts[i] + size))
  }

  lemma WindowsCover(starts: seq<int>, size: int, p: int)
    ensures Covered(Windows(starts, size), p) <==> exists s :: s in starts && s <= p < s + size
  {
    var windows := Windows(starts, size);
    if Covered(windows, p) {
      var r :| r in windows && r.Holds(p);
      var i := IndexOf(windows, r);
      assert starts[i] in starts;
    }
    if s :| s in starts && s <= p < s + size {
      var i := IndexOf(starts, s);
      assert windows[i] in windows && windows[i].Holds(p);
    }
  }

  /** `ranges` are the windows seen so far, merged. */
  ghost predicate IsMerged(ranges: seq<VerifyRange>, seen: seq<VerifyRange>, sampleSize: int, fileSize: int) {
    Apart(ranges) && Inside(ranges, fileSize) && SameCover(ranges, seen) && TotalLength(ranges) <= sampleSize * |seen|
  }

  lemma Grown(merged: seq<VerifyRange>, current: VerifyRange, seen: seq<VerifyRange>, next: VerifyRange,
              sampleSize: int,
              fileSize: int)
    requires IsMerged(merged + [current], seen, sampleSize, fileSize)
    requires current.start <= next.start <= current.end && next.end == next.start + sampleSize <= fileSize
    requires sampleSize >= 0
    ensures IsMerged(merged + [current.(end := Max(current.end, next.end))], seen + [next], sampleSize, fileSize)
  {
    var grown := current.(end := Max(current.end, next.end));
    GrownCover(seen, merged, current, next);
    GrownApart(merged, current, grown);
    GrownInside(merged, current, grown, fileSize);
    GrownLength(merged, current, next, sampleSize, |seen|);
    assert |seen + [next]| == |seen| + 1;
  }

  lemma GrownLength(merged: seq<VerifyRange>, current: VerifyRange, next: VerifyRange, sampleSize: int, k: nat)
    requires TotalLength(merged + [current]) <= sampleSize * k && sampleSize >= 0
    requires next.start <= current.end && next.end == next.start + sampleSize
    ensures TotalLength(merged + [current.(end := Max(current.end, next.end))]) <= sampleSize * (k + 1)
  {
    TotalLengthSnoc(merged, current);
    TotalLengthSnoc(merged, current.(end := Max(current.end, next.end)));
    assert sampleSize * (k + 1) == sampleSize * k + sampleSize;
  }

  lemma GrownInside(merged: seq<VerifyRange>, current: VerifyRange, grown: VerifyRange, fileSize: int)
    requires Inside(merged + [current], fileSize)
    requires grown.start == current.start && current.end <= grown.end <= fileSize
    ensures Inside(merged + [grown], fileSize)
  {
    assert (merged + [current])[|merged|] == current;
    assert forall i | 0 <= i < |merged| :: (merged + [grown])[i] == (merged + [current])[i];
  }

  lemma Added(merged: seq<VerifyRange>, current: VerifyRange, seen: seq<VerifyRange>, next: VerifyRange,
              sampleSize: int,
              fileSize: int)
    requires IsMerged(merged + [current], seen, sampleSize, fileSize)
    requires current.end < next.start && 0 <= next.start <= next.end == next.start + sampleSize <= fileSize
    ensures IsMerged(merged + [current] + [next], seen + [next], sampleSize, fileSize)
  {
    AddedCover(seen, merged + [current], next);
    AddedApart(merged, current, next, fileSize);
    AddedLength(merged + [current], next, sampleSize, |seen|);
    assert |seen + [next]| == |seen| + 1;
  }

  lemma AddedLength(ranges: seq<VerifyRange>, next: VerifyRange, sampleSize: int, k: nat)
    requires TotalLength(ranges) <= sampleSize * k && next.end == next.start + sampleSize
    ensures TotalLength(ranges + [next]) <= sampleSize * (k + 1)
  {
    TotalLengthSnoc(ranges, next);
    assert sampleSize * (k + 1) == sampleSize * k + sampleSize;
  }

  /** Merges sorted windows that touch: ascending ranges that do not touch and cover the same bytes. */
  method Merge(ranges: seq<VerifyRange>, sampleSize: int, fileSize: int) returns (merged: seq<VerifyRange>)
    requires |ranges| >= 1 && SortedByStart(ranges) && sampleSize >= 0
    requires forall i | 0 <= i < |ranges| ::
               0 <= ranges[i].start && ranges[i].end == ranges[i].start + sampleSize <= fileSize
    ensures Apart(merged) && SameCover(merged, ranges)
    ensures forall r | r in merged :: 0 <= r.start <= r.end <= fileSize
    ensures TotalLength(merged) <= sampleSize * |ranges|
  {
    merged := [];
    var current := ranges[0];
    assert ranges[..1] == [ranges[0]] == [] + [current];
    assert ([] + [current])[..0] == [];
    for i := 1 to |ranges|
      invariant IsMerged(merged + [current], ranges[..i], sampleSize, fileSize)
      invariant current.start <= ranges[i - 1].start
    {
      var next := ranges[i];
      assert ranges[..i + 1] == ranges[..i] + [next];
      if next.start <= current.end {
        Grown(merged, current, ranges[..i], next, sampleSize, fileSize);
        current := current.(end := Max(current.end, next.end));
      } else {
        Added(merged, current, ranges[..i], next, sampleSize, fileSize);
        merged := merged + [current];
        current := next;
      }
    }
    merged := merged + [current];
    assert ranges[..|ranges|] == ranges;
    forall r | r in merged ensures 0 <= r.start <= r.end <= fileSize {
      var k := IndexOf(merged, r);
    }
  }

  /** `starts` are the starts drawn at random, one for each sample. The whole file when it is no longer than
      the samples together; otherwise the union of the windows, as ascending ranges that do not touch,
      inside the file, of at most the length of the samples together. */
  method GenerateChallengeRanges(fileSize: int, sampleSize: int, starts: seq<int>) returns (merged: seq<VerifyRange>)
    requires fileSize >= 0 && sampleSize >= 0 && |starts| >= 1
    requires fileSize > sampleSize * |starts| ==> forall s | s in starts :: 0 <= s <= fileSize - sampleSize
    ensures fileSize <= sampleSize * |starts| ==> merged == [VerifyRange(0, fileSize)]
    ensures fileSize > sampleSize * |starts| ==>
              && Apart(merged)
              && (forall r | r in merged :: 0 <= r.start <= r.end <= fileSize)
              && (forall p :: Covered(merged, p) <==> exists s :: s in starts && s <= p < s + sampleSize)
    ensures TotalLength(merged) <= sampleSize * |starts|
  {
    if fileSize <= sampleSize * |starts| {
      merged := [VerifyRange(0, fileSize)];
      assert merged[..0] == [];
      return;
    }
    var ranges := SortByStart(Windows(starts, sampleSize));
    forall i | 0 <= i < |ranges|
      ensures 0 <= ranges[i].start && ranges[i].end == ranges[i].start + sampleSize <= fileSize
    {
      assert ranges[i] in ranges;
      var k := IndexOf(Windows(starts, sampleSize), ranges[i]);
      assert starts[k] in starts;
    }
    merged := Merge(ranges, sampleSize, fileSize);
    forall p ensures Covered(merged, p) <==> exists s :: s in starts && s <= p < s + sampleSize {
      WindowsCover(starts, sampleSize, p);
      SameCovered(ranges, Windows(starts, sampleSize), p);
      assert Covered(merged, p) <==> Covered(ranges, p);
    }
  }

  lemma SameCovered(a: seq<VerifyRange>, b: seq<VerifyRange>, p: int)
    requires forall r :: r in a <==> r in b
    ensures Covered(a, p) <==> Covered(b, p)
  {
  }
}
