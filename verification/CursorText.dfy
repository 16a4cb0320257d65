/** The cursor of a page as text: microseconds, an underscore, the id as a UUID. */
module CursorText {
  import opened Base
  import opened Decimal
  import opened Paging

  // ---- UUID text ----

  function HexChar(d: nat): (c: char)
    requires d < 16
    ensures IsHex(c) && HexValue(c) == d
  {
    if d < 10 then ('0' as int + d) as char else ('a' as int + d - 10) as char
  }

  predicate IsHex(c: char) {
    '0' <= c <= '9' || 'a' <= c <= 'f' || 'A' <= c <= 'F'
  }

  function HexValue(c: char): (d: nat)
    requires IsHex(c)
    ensures d < 16
  {
    if c <= '9' then c as int - '0' as int
    else if c <= 'F' then c as int - 'A' as int + 10
    else c as int - 'a' as int + 10
  }

  predicate AllHex(s: string) {
    forall i | 0 <= i < |s| :: IsHex(s[i])
  }

  function Power16(k: nat): nat {
    if k == 0 then 1 else 16 * Power16(k - 1)
  }

  /** The lowest `k` hexadecimal digits of `n`. */
  function HexDigits(n: nat, k: nat): (s: string)
    ensures |s| == k && AllHex(s)
  {
    if k == 0 then "" else HexDigits(n / 16, k - 1) + [HexChar(n % 16)]
  }

  function HexNumber(s: string): nat
    requires AllHex(s)
  {
    if s == "" then 0 else HexNumber(s[..|s| - 1]) * 16 + HexValue(s[|s| - 1])
  }

  lemma {:induction false} HexReadsBack(n: nat, k: nat)
    requires n < Power16(k)
    ensures HexNumber(HexDigits(n, k)) == n
  {
    if k > 0 {
      HexReadsBack(n / 16, k - 1);
      var s := HexDigits(n, k);
      assert s[..|s| - 1] == HexDigits(n / 16, k - 1);
    }
  }

  function Hyphenated(h: string): (s: string)
    requires |h| == 32
    ensures |s| == 36
  {
    h[..8] + "-" + h[8..12] + "-" + h[12..16] + "-" + h[16..20] + "-" + h[20..]
  }

  function ParseHyphenated(s: string): Option<Id>
    requires |s| == 36
  {
    var h := s[..8] + s[9..13] + s[14..18] + s[19..23] + s[24..];
    if s[8] == '-' && s[13] == '-' && s[18] == '-' && s[23] == '-' && AllHex(h) then Some(HexNumber(h)) else None
  }

  /** The spellings of a UUID that are read: simple, hyphenated, in braces, as a URN. */
  function ParseUuid(s: string): Option<Id> {
    if |s| == 32 then (if AllHex(s) then Some(HexNumber(s)) else None)
    else if |s| == 36 then ParseHyphenated(s)
    else if |s| == 38 && s[0] == '{' && s[37] == '}' then ParseHyphenated(s[1..37])
    else if |s| == 45 && s[..9] == "urn:uuid:" then ParseHyphenated(s[9..])
    else None
  }

  lemma HyphensGo(h: string)
    requires |h| == 32
    ensures var s := Hyphenated(h);
            && s[8] == '-' && s[13] == '-' && s[18] == '-' && s[23] == '-'
            && s[..8] + s[9..13] + s[14..18] + s[19..23] + s[24..] == h
  {
    var s := Hyphenated(h);
    assert s[..8] == h[..8] && s[9..13] == h[8..12] && s[14..18] == h[12..16] && s[19..23] == h[16..20];
    assert s[24..] == h[20..];
  }

  lemma UuidReadsBack(id: Id)
    requires id < Power16(32)
    ensures ParseUuid(Hyphenated(HexDigits(id, 32))) == Some(id)
  {
    HexReadsBack(id, 32);
    HyphensGo(HexDigits(id, 32));
  }

  // ---- Signed numbers of 64 bits ----

  const I64_MIN := -0x8000_0000_0000_0000
  const I64_MAX := 0x7fff_ffff_ffff_ffff

  function SignedText(n: int): string {
    if n < 0 then "-" + DigitsOf(-n) else DigitsOf(n)
  }

  function ParseI64(s: string): Option<int> {
    var negative := s != "" && s[0] == '-';
    var digits := if s != "" && (s[0] == '-' || s[0] == '+') then s[1..] else s;
    if digits == "" || !AllDigits(digits) then None
    else
      var magnitude: int := NumberOf(digits);
      var n := if negative then -magnitude else magnitude;
      if I64_MIN <= n <= I64_MAX then Some(n) else None
  }

  lemma SignedReadsBack(n: int)
    requires I64_MIN <= n <= I64_MAX
    ensures ParseI64(SignedText(n)) == Some(n)
    ensures '_' !in SignedText(n)
  {
    if n < 0 {
      ReadsBack(-n);
      assert SignedText(n)[1..] == DigitsOf(-n);
    } else {
      ReadsBack(n);
      assert DigitsOf(n)[0] in DigitsOf(n);
    }
  }

  // ---- Cursors ----

  /** The times a date can hold, in microseconds. */
  datatype Calendar = Calendar(first: Time, last: Time)

  function Display(c: Cursor): string {
    SignedText(c.at) + "_" + Hyphenated(HexDigits(c.id, 32))
  }

  /** The first underscore. */
  function Underscore(s: string): (i: Option<nat>)
    ensures i.None? <==> '_' !in s
    ensures i.Some? ==> i.value < |s| && s[i.value] == '_' && '_' !in s[..i.value]
  {
    if s == "" then None
    else if s[0] == '_' then Some(0)
    else
      match Underscore(s[1..])
      case None => assert s == [s[0]] + s[1..]; None
      case Some(i) => assert s[..i + 1] == [s[0]] + s[1..][..i]; Some(i + 1)
  }

  lemma {:induction false} UnderscoreAt(a: string, b: string)
    requires '_' !in a
    ensures Underscore(a + "_" + b) == Some(|a|)
  {
    var s := a + "_" + b;
    if a != "" {
      assert a[0] in a;
      assert s[1..] == a[1..] + "_" + b;
      UnderscoreAt(a[1..], b);
    }
  }

  function Parse(calendar: Calendar, s: string): Option<Cursor> {
    match Underscore(s)
    case None => None
    case Some(i) =>
      match (ParseI64(s[..i]), ParseUuid(s[i + 1..]))
      case (Some(at), Some(id)) => if calendar.first <= at <= calendar.last then Some(Cursor(at, id)) else None
      case _ => None
  }

  /** A cursor is read back as it was written. */
  lemma CursorReadsBack(calendar: Calendar, c: Cursor)
    requires I64_MIN <= calendar.first <= c.at <= calendar.last <= I64_MAX
    requires c.id < Power16(32)
    ensures Parse(calendar, Display(c)) == Some(c)
  {
    var s := Display(c);
    var micros := SignedText(c.at);
    SignedReadsBack(c.at);
    UuidReadsBack(c.id);
    UnderscoreAt(micros, Hyphenated(HexDigits(c.id, 32)));
    var i := |micros|;
    assert s[..i] == micros && s[i + 1..] == Hyphenated(HexDigits(c.id, 32));
  }
}
