/** The bitmap of uploaded chunks: bits in most-significant-bit-first order in a string of bytes that grows
    as bits are set. */
module Bitmap {
  import opened Base

  type Bits = seq<bv8>

  // ---- One byte ----

  /** The `i`th bit of a byte, from the most significant one. */
  predicate ByteBit(b: bv8, i: nat)
    requires i < 8
  {
    (b >> (7 - i)) & 1 == 1
  }

  function WithByteBit(b: bv8, i: nat): bv8
    requires i < 8
  {
    b | (1 << (7 - i))
  }

  lemma SetByteBit(b: bv8, i: nat, j: nat)
    requires i < 8 && j < 8
    ensures ByteBit(WithByteBit(b, i), j) <==> i == j || ByteBit(b, j)
  {
    assert i == 0 || i == 1 || i == 2 || i == 3 || i == 4 || i == 5 || i == 6 || i == 7;
    assert j == 0 || j == 1 || j == 2 || j == 3 || j == 4 || j == 5 || j == 6 || j == 7;
  }

  lemma ZeroByte(i: nat)
    requires i < 8
    ensures !ByteBit(0, i)
  {
    assert i == 0 || i == 1 || i == 2 || i == 3 || i == 4 || i == 5 || i == 6 || i == 7;
  }

  // ---- The string of bytes ----

  /** Bits past the end are not set. */
  predicate Bit(bits: Bits, i: nat) {
    i / 8 < |bits| && ByteBit(bits[i / 8], i % 8)
  }

  function Grown(bits: Bits, length: nat): (r: Bits)
    ensures |r| == Max(|bits|, length) && bits <= r && forall k | |bits| <= k < |r| :: r[k] == 0
  {
    if |bits| >= length then bits else bits + seq(length - |bits|, _ => 0)
  }

  /** Sets a bit, growing the string with zeros up to it. */
  function SetBit(bits: Bits, i: nat): Bits {
    var grown := Grown(bits, i / 8 + 1);
    grown[i / 8 := WithByteBit(grown[i / 8], i % 8)]
  }

  lemma SetBitSets(bits: Bits, i: nat, j: nat)
    ensures Bit(SetBit(bits, i), j) <==> i == j || Bit(bits, j)
  {
    var grown := Grown(bits, i / 8 + 1);
    assert Bit(grown, j) <==> Bit(bits, j) by {
      if |bits| <= j / 8 < |grown| { ZeroByte(j % 8); }
    }
    if i / 8 == j / 8 {
      SetByteBit(grown[i / 8], i % 8, j % 8);
    }
  }

  /** The indices whose bit is set. */
  ghost function Marked(bits: Bits): set<nat> {
    set i: nat | i < 8 * |bits| && Bit(bits, i)
  }

  lemma MarkedBits(bits: Bits, i: nat)
    ensures i in Marked(bits) <==> Bit(bits, i)
  {
  }

  lemma SetBitMarks(bits: Bits, i: nat)
    ensures Marked(SetBit(bits, i)) == Marked(bits) + {i}
  {
    forall j: nat ensures j in Marked(SetBit(bits, i)) <==> j in Marked(bits) + {i} {
      SetBitSets(bits, i, j);
      MarkedBits(bits, j);
      MarkedBits(SetBit(bits, i), j);
    }
  }

  // ---- Counting ----

  /** The bits of a byte, from the most significant one. */
  function Flags(b: bv8): (flags: seq<bool>)
    ensures |flags| == 8 && forall i | 0 <= i < 8 :: flags[i] == ByteBit(b, i)
  {
    seq(8, i requires 0 <= i < 8 => ByteBit(b, i))
  }

  function CountTrue(flags: seq<bool>): nat {
    if flags == [] then 0 else CountTrue(flags[..|flags| - 1]) + if flags[|flags| - 1] then 1 else 0
  }

  /** How many bits are set. */
  function BitCount(bits: Bits): nat {
    if bits == [] then 0 else BitCount(bits[..|bits| - 1]) + CountTrue(Flags(bits[|bits| - 1]))
  }

  /** The indices of the set flags, counted from `base`. */
  ghost function FlagsMarked(flags: seq<bool>, base: nat): (marked: set<nat>)
    ensures forall i :: i in marked <==> base <= i < base + |flags| && flags[i - base]
    ensures |marked| == CountTrue(flags)
  {
    if flags == [] then {}
    else
      var n := |flags| - 1;
      var rest := FlagsMarked(flags[..n], base);
      if flags[n] then rest + {base + n} else rest
  }

  /** The count of set bits is the number of marked indices. */
  lemma {:induction false} BitCountIsMarked(bits: Bits)
    ensures BitCount(bits) == |Marked(bits)|
  {
    if bits == [] {
      assert Marked(bits) == {};
    } else {
      var n := |bits| - 1;
      BitCountIsMarked(bits[..n]);
      MarkedOneMore(bits[..n], bits[n]);
      assert bits == bits[..n] + [bits[n]];
    }
  }

  lemma MarkedOneMore(rest: Bits, b: bv8)
    ensures |Marked(rest + [b])| == |Marked(rest)| + CountTrue(Flags(b))
  {
    var last := FlagsMarked(Flags(b), 8 * |rest|);
    MarkedSnoc(rest, b, last);
    MarkedBelow(rest);
    UnionSize(Marked(rest), last);
  }

  lemma MarkedBelow(bits: Bits)
    ensures forall i | i in Marked(bits) :: i < 8 * |bits|
  {
  }

  lemma UnionSize(a: set<nat>, b: set<nat>)
    requires a !! b
    ensures |a + b| == |a| + |b|
  {
  }

  lemma MarkedSnoc(rest: Bits, b: bv8, last: set<nat>)
    requires forall i :: i in last <==> 8 * |rest| <= i < 8 * |rest| + 8 && Flags(b)[i - 8 * |rest|]
    ensures Marked(rest + [b]) == Marked(rest) + last
  {
    forall i: nat ensures i in Marked(rest + [b]) <==> i in Marked(rest) + last {
      MarkedBits(rest + [b], i);
      MarkedBits(rest, i);
      if 8 * |rest| <= i < 8 * |rest| + 8 {
        assert i / 8 == |rest| && i % 8 == i - 8 * |rest|;
      }
    }
  }

  // ---- Missing indices ----

  ghost function MissingBelow(bits: Bits, total: nat): set<nat> {
    set i: nat | i < total && !Bit(bits, i)
  }

  /** The indices below `total` that are not set, in ascending order. */
  method GetAllMissing(stored: Option<Bits>, total: nat) returns (missing: seq<nat>)
    ensures forall i, j | 0 <= i < j < |missing| :: missing[i] < missing[j]
    ensures forall i :: i in missing <==> i in MissingBelow(stored.GetOr([]), total)
  {
    missing := [];
    match stored
    case None =>
      for i := 0 to total
        invariant forall k :: k in missing <==> 0 <= k < i
        invariant forall j, k | 0 <= j < k < |missing| :: missing[j] < missing[k]
      {
        assert forall k | 0 <= k < |missing| :: missing[k] in missing;
        missing := missing + [i];
      }
    case Some(bytes) =>
      for i := 0 to total
        invariant forall k :: k in missing <==> 0 <= k < i && !Bit(bytes, k)
        invariant forall j, k | 0 <= j < k < |missing| :: missing[j] < missing[k]
      {
        assert forall k | 0 <= k < |missing| :: missing[k] in missing;
        var uploaded := i / 8 < |bytes| && (bytes[i / 8] >> (7 - i % 8)) & 1 == 1;
        if !uploaded {
          missing := missing + [i];
        }
      }
  }

  ghost function Strays(bits: Bits, total: nat): set<nat> {
    set i | i in Marked(bits) && i >= total
  }

  ghost function Below(total: nat): (all: set<nat>)
    ensures |all| == total && forall i :: i in all <==> 0 <= i < total
  {
    if total == 0 then {} else Below(total - 1) + {total - 1}
  }

  /** The count of set bits is what is not missing below `total`, and what is set past it. */
  lemma CountBalance(bits: Bits, total: nat)
    ensures BitCount(bits) + |MissingBelow(bits, total)| == total + |Strays(bits, total)|
  {
    BitCountIsMarked(bits);
    var all := Below(total);
    var missing, strays := MissingBelow(bits, total), Strays(bits, total);
    forall i: nat ensures i in Marked(bits) <==> i in (all - missing) + strays { MarkedBits(bits, i); }
    assert Marked(bits) == (all - missing) + strays;
    assert (all - missing) !! strays;
    assert all == (all - missing) + missing;
  }

  /** An upload counts as complete by its set bits exactly when nothing is missing, if and only if the bits
      past the last chunk are fewer than the chunks missing, or none is missing. */
  lemma CompleteByCount(bits: Bits, total: nat)
    ensures ((BitCount(bits) >= total) <==> MissingBelow(bits, total) == {})
       <==> (MissingBelow(bits, total) == {} || |Strays(bits, total)| < |MissingBelow(bits, total)|)
    ensures Strays(bits, total) == {} ==> ((BitCount(bits) >= total) <==> MissingBelow(bits, total) == {})
  {
    CountBalance(bits, total);
  }
}
