/** Fractional keys of siblings: byte strings in lexicographic order. The library the service uses
    is not part of this model; `Mid` is one concrete function that meets its contract. */
module Keys {
  import opened Base

  type Byte = b: nat | b < 256
  type Key = seq<Byte>

  /** 64 characters of hex. */
  const MAX_LEN: nat := 32

  predicate Less(a: Key, b: Key) {
    b != [] && (a == [] || a[0] < b[0] || (a[0] == b[0] && Less(a[1..], b[1..])))
  }

  lemma {:induction false} LessTransitive(a: Key, b: Key, c: Key)
    requires Less(a, b) && Less(b, c)
    ensures Less(a, c)
  {
    if a != [] && a[0] == b[0] == c[0] {
      LessTransitive(a[1..], b[1..], c[1..]);
    }
  }

  lemma {:induction false} LessTotal(a: Key, b: Key)
    ensures Less(a, b) || a == b || Less(b, a)
  {
    if a != [] && b != [] && a[0] == b[0] {
      LessTotal(a[1..], b[1..]);
      assert a == [a[0]] + a[1..] && b == [b[0]] + b[1..];
    }
  }

  lemma {:induction false} LessAsymmetric(a: Key, b: Key)
    requires Less(a, b)
    ensures a != b && !Less(b, a)
  {
    if a != [] && a[0] == b[0] {
      LessAsymmetric(a[1..], b[1..]);
    }
  }

  /** A key that always leaves room below it. */
  predicate Clean(k: Key) {
    k != [] && k[|k| - 1] != 0
  }

  /** The key is after `lo`, and before `hi` if there is one. */
  predicate Within(lo: Key, hi: Option<Key>, k: Key) {
    Less(lo, k) && (hi.Some? ==> Less(k, hi.value))
  }

  /** A key after `a`. */
  function After(a: Key): (k: Key)
    ensures Less(a, k) && Clean(k)
  {
    if a == [] then [128]
    else if a[0] < 255 then [a[0] + 1]
    else [255] + After(a[1..])
  }

  /** A key between `lo` (`[]` is below every key) and `hi`; there is one whenever `hi` is clean. */
  function Mid(lo: Key, hi: Option<Key>): (k: Option<Key>)
    requires hi.Some? ==> Less(lo, hi.value)
    ensures k.Some? ==> Within(lo, hi, k.value) && Clean(k.value)
    ensures hi.None? || Clean(hi.value) ==> k.Some?
    decreases |lo| + if hi.Some? then |hi.value| else 0
  {
    if hi.None? then Some(After(lo))
    else
      var b := hi.value;
      if lo == [] then
        if b[0] >= 2 then Some([b[0] / 2])
        else if b[0] == 1 then Some([0, 128])
        else if |b| == 1 then None
        else Prefixed(0, Mid([], Some(b[1..])))
      else if lo[0] == b[0] then Prefixed(b[0], Mid(lo[1..], Some(b[1..])))
      else if b[0] - lo[0] >= 2 then Some([lo[0] + (b[0] - lo[0]) / 2])
      else Some([lo[0]] + After(lo[1..]))
  }

  function Prefixed(first: Byte, rest: Option<Key>): Option<Key> {
    match rest
    case None => None
    case Some(k) => Some([first] + k)
  }

  /** The new key for a gap; a missing neighbour leaves that side unbounded. */
  function Between(before: Option<Key>, after: Option<Key>): (k: Option<Key>)
    ensures k.Some? && before.Some? ==> Less(before.value, k.value)
    ensures k.Some? && after.Some? ==> Less(k.value, after.value)
    ensures k.Some? ==> |k.value| <= MAX_LEN
    ensures before.Some? && after.Some? && !Less(before.value, after.value) ==> k.None?
  {
    var lo := before.GetOr([]);
    if after.Some? && !Less(lo, after.value) then None
    else
      var k := Mid(lo, after);
      if k.Some? && |k.value| <= MAX_LEN then k else None
  }

  predicate Increasing(keys: seq<Key>) {
    forall i, j | 0 <= i < j < |keys| :: Less(keys[i], keys[j])
  }

  /** `count` keys between `lo` and `hi`, halving the gap. */
  function Bisect(lo: Key, hi: Option<Key>, count: nat): (keys: seq<Key>)
    requires hi.Some? ==> Clean(hi.value) && Less(lo, hi.value)
    ensures |keys| == count && Increasing(keys)
    ensures forall i | 0 <= i < count :: Within(lo, hi, keys[i])
    decreases count
  {
    if count == 0 then []
    else
      var mid := Mid(lo, hi).value;
      var left := Bisect(lo, Some(mid), count / 2);
      var right := Bisect(mid, hi, count - count / 2 - 1);
      BisectJoins(lo, hi, left, mid, right);
      left + [mid] + right
  }

  lemma BisectJoins(lo: Key, hi: Option<Key>, left: seq<Key>, mid: Key, right: seq<Key>)
    requires Within(lo, hi, mid)
    requires Increasing(left) && forall i | 0 <= i < |left| :: Within(lo, Some(mid), left[i])
    requires Increasing(right) && forall i | 0 <= i < |right| :: Within(mid, hi, right[i])
    ensures Increasing(left + [mid] + right)
    ensures forall i | 0 <= i < |left + [mid] + right| :: Within(lo, hi, (left + [mid] + right)[i])
  {
    forall i | 0 <= i < |left| ensures Within(lo, hi, left[i]) {
      if hi.Some? { LessTransitive(left[i], mid, hi.value); }
    }
    forall i | 0 <= i < |right| ensures Within(lo, hi, right[i]) {
      LessTransitive(lo, mid, right[i]);
    }
    forall i, j | 0 <= i < |left| && 0 <= j < |right| ensures Less(left[i], right[j]) {
      LessTransitive(left[i], mid, right[j]);
    }
  }

  /** Keys for a whole list of siblings. */
  function Spread(count: nat): (keys: seq<Key>)
    ensures |keys| == count && Increasing(keys)
  {
    Bisect([], None, count)
  }

  // ---- How long keys get ----

  function Power2(n: nat): nat {
    if n == 0 then 1 else 2 * Power2(n - 1)
  }

  lemma {:induction false} AfterLength(a: Key)
    ensures |After(a)| <= |a| + 1
  {
    if a != [] && a[0] == 255 { AfterLength(a[1..]); }
  }

  /** A key between two is at most one byte longer than the longer of them. */
  lemma {:induction false} MidLength(lo: Key, hi: Option<Key>)
    requires hi.Some? ==> Less(lo, hi.value)
    ensures Mid(lo, hi).Some? ==> |Mid(lo, hi).value| <= Max(|lo|, |hi.GetOr([])|) + 1
    decreases |lo| + if hi.Some? then |hi.value| else 0
  {
    AfterLength(lo);
    if hi.Some? {
      var b := hi.value;
      if lo == [] {
        if b[0] == 0 && |b| > 1 { MidLength([], Some(b[1..])); }
      } else if lo[0] == b[0] {
        MidLength(lo[1..], Some(b[1..]));
      } else {
        AfterLength(lo[1..]);
      }
    }
  }

  /** Halving a gap `n` times makes fewer than two to the `n` keys, each at most `n` bytes longer than its ends. */
  lemma {:induction false} BisectShort(lo: Key, hi: Option<Key>, count: nat, n: nat)
    requires hi.Some? ==> Clean(hi.value) && Less(lo, hi.value)
    requires count < Power2(n)
    ensures forall i | 0 <= i < count ::
              Clean(Bisect(lo, hi, count)[i]) && |Bisect(lo, hi, count)[i]| <= Max(|lo|, |hi.GetOr([])|) + n
    decreases count
  {
    if count > 0 {
      var mid := Mid(lo, hi).value;
      MidLength(lo, hi);
      BisectShort(lo, Some(mid), count / 2, n - 1);
      BisectShort(mid, hi, count - count / 2 - 1, n - 1);
    }
  }

  /** Spread keys are short: `n` bytes do for fewer than two to the `n` of them. */
  lemma SpreadShort(count: nat, n: nat)
    requires count < Power2(n)
    ensures forall i | 0 <= i < count :: Clean(Spread(count)[i]) && |Spread(count)[i]| <= n
  {
    BisectShort([], None, count, n);
  }

  function NeighbourAt(keys: seq<Key>, i: int): Option<Key> {
    if 0 <= i < |keys| then Some(keys[i]) else None
  }

  /** After a renumbering there is room everywhere: before the first key, after the last one and between any two
      that are next to each other. */
  lemma SpreadHasRoom(count: nat, i: nat)
    requires count < Power2(MAX_LEN - 1) && i <= count
    ensures Between(NeighbourAt(Spread(count), i - 1), NeighbourAt(Spread(count), i)).Some?
  {
    SpreadShort(count, MAX_LEN - 1);
    var before, after := NeighbourAt(Spread(count), i - 1), NeighbourAt(Spread(count), i);
    MidLength(before.GetOr([]), after);
  }
}
