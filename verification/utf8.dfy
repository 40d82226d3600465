/**
 Go's `utf8.Valid`: whether a byte sequence consists entirely of
 well-formed UTF-8 characters. The reference definition is the syntax of
 section 4 of RFC 3629; the scanner is the table-driven check Go uses
 (a leading-byte class plus the accepted range of the second byte), and the
 two are proved to agree. Encoding of Unicode scalar values (section 3 of
 RFC 3629) ties the syntax to its meaning.
 */
module Utf8 {
  import opened Bytes

  /** UTF8-tail: 80-BF. */
  predicate Tail(b: byte) {
    0x80 <= b <= 0xBF
  }

  /** UTF8-1: a single byte 00-7F. */
  predicate Char1(s: Text) {
    |s| == 1 && s[0] <= 0x7F
  }

  /** UTF8-2: C2-DF followed by one tail byte. */
  predicate Char2(s: Text) {
    |s| == 2 && 0xC2 <= s[0] <= 0xDF && Tail(s[1])
  }

  /** UTF8-3: E0 A0-BF tail, E1-EC tail tail, ED 80-9F tail, or EE-EF tail tail. */
  predicate Char3(s: Text) {
    && |s| == 3
    && Tail(s[2])
    && (|| (s[0] == 0xE0 && 0xA0 <= s[1] <= 0xBF)
        || (0xE1 <= s[0] <= 0xEC && Tail(s[1]))
        || (s[0] == 0xED && 0x80 <= s[1] <= 0x9F)
        || (0xEE <= s[0] <= 0xEF && Tail(s[1])))
  }

  /** UTF8-4: F0 90-BF tail tail, F1-F3 tail tail tail, or F4 80-8F tail tail. */
  predicate Char4(s: Text) {
    && |s| == 4
    && Tail(s[2]) && Tail(s[3])
    && (|| (s[0] == 0xF0 && 0x90 <= s[1] <= 0xBF)
        || (0xF1 <= s[0] <= 0xF3 && Tail(s[1]))
        || (s[0] == 0xF4 && 0x80 <= s[1] <= 0x8F))
  }

  /** UTF8-char. */
  predicate IsChar(s: Text) {
    Char1(s) || Char2(s) || Char3(s) || Char4(s)
  }

  /** UTF8-octets: zero or more UTF8-char, one after another. */
  predicate Valid(s: Text)
    decreases |s|
  {
    || s == []
    || (|s| >= 1 && IsChar(s[..1]) && Valid(s[1..]))
    || (|s| >= 2 && IsChar(s[..2]) && Valid(s[2..]))
    || (|s| >= 3 && IsChar(s[..3]) && Valid(s[3..]))
    || (|s| >= 4 && IsChar(s[..4]) && Valid(s[4..]))
  }

  // ---------------------------------------------------------------------
  // The scanner
  // ---------------------------------------------------------------------

  /** How many bytes a character starting with `b` occupies; 0 if `b` cannot start one. */
  function Width(b: byte): nat {
    if b < 0x80 then 1
    else if b < 0xC2 then 0
    else if b < 0xE0 then 2
    else if b < 0xF0 then 3
    else if b < 0xF5 then 4
    else 0
  }

  /** The least second byte accepted after leading byte `b`. */
  function SecondLow(b: byte): byte {
    if b == 0xE0 then 0xA0 else if b == 0xF0 then 0x90 else 0x80
  }

  /** The greatest second byte accepted after leading byte `b`. */
  function SecondHigh(b: byte): byte {
    if b == 0xED then 0x9F else if b == 0xF4 then 0x8F else 0xBF
  }

  /**
   The length of the character the scanner accepts at the front of `s`,
   or 0 when the scanner rejects `s` there.
   */
  function Scan(s: Text): (n: nat)
    requires |s| > 0
    ensures n <= 4 && n <= |s| && (n > 0 ==> IsChar(s[..n]))
  {
    var w := Width(s[0]);
    if w == 0 || |s| < w then 0
    else if w == 1 then 1
    else if s[1] < SecondLow(s[0]) || SecondHigh(s[0]) < s[1] then 0
    else if w >= 3 && !Tail(s[2]) then 0
    else if w == 4 && !Tail(s[3]) then 0
    else w
  }

  /** No well-formed character starts `s` other than the one the scanner accepts. */
  lemma ScanComplete(s: Text, m: nat)
    requires 1 <= m <= |s| && IsChar(s[..m])
    ensures Scan(s) == m
  {
  }

  /** Valid, unfolded through the scanner: the first character, then the rest. */
  lemma ValidByScan(s: Text)
    requires |s| > 0
    ensures Valid(s) <==> Scan(s) > 0 && Valid(s[Scan(s)..])
  {
    var n := Scan(s);
    forall m | 1 <= m <= 4 && m <= |s| && IsChar(s[..m])
      ensures m == n
    {
      ScanComplete(s, m);
    }
  }

  /** `utf8.Valid(s)`: walks `s` one accepted character at a time. */
  method IsValid(s: Text) returns (ok: bool)
    ensures ok <==> Valid(s)
  {
    var i := 0;
    while i < |s|
      invariant i <= |s|
      invariant Valid(s) <==> Valid(s[i..])
    {
      var n := Scan(s[i..]);
      ValidByScan(s[i..]);
      if n == 0 {
        return false;
      }
      assert s[i..][n..] == s[i + n..];
      i := i + n;
    }
    return true;
  }

  // ---------------------------------------------------------------------
  // Meaning: the encoding of Unicode scalar values
  // ---------------------------------------------------------------------

  /** A Unicode scalar value: a code point that is not a surrogate. */
  predicate IsScalar(c: int) {
    0 <= c <= 0x10FFFF && !(0xD800 <= c <= 0xDFFF)
  }

  /** The UTF-8 encoding of one scalar value, in the shortest form. */
  function EncodeScalar(c: int): (r: Text)
    requires IsScalar(c)
    ensures IsChar(r)
  {
    if c < 0x80 then
      [c as byte]
    else if c < 0x800 then
      EncodeTwo(c);
      [(0xC0 + c / 64) as byte, (0x80 + c % 64) as byte]
    else if c < 0x10000 then
      EncodeThree(c);
      [(0xE0 + c / 4096) as byte, (0x80 + c / 64 % 64) as byte, (0x80 + c % 64) as byte]
    else
      EncodeFour(c);
      [(0xF0 + c / 262144) as byte, (0x80 + c / 4096 % 64) as byte,
       (0x80 + c / 64 % 64) as byte, (0x80 + c % 64) as byte]
  }

  lemma EncodeTwo(c: int)
    requires 0x80 <= c < 0x800
    ensures 0xC2 <= 0xC0 + c / 64 <= 0xDF && Tail((0x80 + c % 64) as byte)
  {
  }

  lemma EncodeThree(c: int)
    requires 0x800 <= c < 0x10000 && !(0xD800 <= c <= 0xDFFF)
    ensures Char3([(0xE0 + c / 4096) as byte, (0x80 + c / 64 % 64) as byte, (0x80 + c % 64) as byte])
  {
    var b0, b1 := 0xE0 + c / 4096, 0x80 + c / 64 % 64;
    assert c / 4096 == c / 64 / 64;
    if c < 0x1000 {
      assert b0 == 0xE0 && b1 >= 0xA0;
    } else if 0xD000 <= c < 0xD800 {
      assert b0 == 0xED && b1 <= 0x9F;
    }
  }

  lemma EncodeFour(c: int)
    requires 0x10000 <= c <= 0x10FFFF
    ensures Char4([(0xF0 + c / 262144) as byte, (0x80 + c / 4096 % 64) as byte,
                   (0x80 + c / 64 % 64) as byte, (0x80 + c % 64) as byte])
  {
    var b0, b1 := 0xF0 + c / 262144, 0x80 + c / 4096 % 64;
    assert c / 262144 == c / 4096 / 64;
    if c < 0x40000 {
      assert b0 == 0xF0 && b1 >= 0x90;
    } else if c >= 0x100000 {
      assert b0 == 0xF4 && b1 <= 0x8F;
    }
  }

  /** Splitting `q * 64 + r` back into its two parts. */
  lemma Split64(q: int, r: int)
    requires 0 <= q && 0 <= r < 64
    ensures (q * 64 + r) / 64 == q && (q * 64 + r) % 64 == r
  {
  }

  lemma DecodeTwo(s: Text)
    requires Char2(s)
    ensures var c := (s[0] as int - 0xC0) * 64 + (s[1] as int - 0x80);
      IsScalar(c) && EncodeScalar(c) == s
  {
    Split64(s[0] as int - 0xC0, s[1] as int - 0x80);
  }

  /** Dividing by 64 twice or three times is dividing by 4096 or 262144. */
  lemma DivNested(c: int)
    requires 0 <= c
    ensures c / 4096 == c / 64 / 64 && c / 262144 == c / 4096 / 64
  {
  }

  lemma DecodeThree(s: Text)
    requires Char3(s)
    ensures var c := ((s[0] as int - 0xE0) * 64 + (s[1] as int - 0x80)) * 64 + (s[2] as int - 0x80);
      IsScalar(c) && EncodeScalar(c) == s
  {
    var b0, b1, b2 := s[0] as int, s[1] as int, s[2] as int;
    var hi := (b0 - 0xE0) * 64 + (b1 - 0x80);
    var c := hi * 64 + (b2 - 0x80);
    Split64(hi, b2 - 0x80);
    Split64(b0 - 0xE0, b1 - 0x80);
    DivNested(c);
    assert c / 4096 == b0 - 0xE0 && c / 64 % 64 == b1 - 0x80 && c % 64 == b2 - 0x80;
    assert 0x800 <= c < 0x10000 && !(0xD800 <= c <= 0xDFFF) by {
      if b0 == 0xE0 { assert b1 >= 0xA0; }
      if b0 == 0xED { assert b1 <= 0x9F; }
    }
    var e := EncodeScalar(c);
    assert e == [(0xE0 + c / 4096) as byte, (0x80 + c / 64 % 64) as byte, (0x80 + c % 64) as byte];
    assert e[0] == s[0] && e[1] == s[1] && e[2] == s[2];
  }

  lemma DecodeFour(s: Text)
    requires Char4(s)
    ensures var c := (((s[0] as int - 0xF0) * 64 + (s[1] as int - 0x80)) * 64 + (s[2] as int - 0x80)) * 64 + (s[3] as int - 0x80);
      IsScalar(c) && EncodeScalar(c) == s
  {
    var b0, b1, b2, b3 := s[0] as int, s[1] as int, s[2] as int, s[3] as int;
    var h1 := (b0 - 0xF0) * 64 + (b1 - 0x80);
    var h2 := h1 * 64 + (b2 - 0x80);
    var c := h2 * 64 + (b3 - 0x80);
    Split64(h2, b3 - 0x80);
    Split64(h1, b2 - 0x80);
    Split64(b0 - 0xF0, b1 - 0x80);
    DivNested(c);
    assert c / 262144 == b0 - 0xF0 && c / 4096 % 64 == b1 - 0x80;
    assert c / 64 % 64 == b2 - 0x80 && c % 64 == b3 - 0x80;
    assert 0x10000 <= c <= 0x10FFFF by {
      if b0 == 0xF0 { assert b1 >= 0x90; }
      if b0 == 0xF4 { assert b1 <= 0x8F; }
    }
    var e := EncodeScalar(c);
    assert e == [(0xF0 + c / 262144) as byte, (0x80 + c / 4096 % 64) as byte,
                 (0x80 + c / 64 % 64) as byte, (0x80 + c % 64) as byte];
    assert e[0] == s[0] && e[1] == s[1] && e[2] == s[2] && e[3] == s[3];
  }

  /** The scalar value a well-formed character stands for. */
  function DecodeChar(s: Text): (c: int)
    requires IsChar(s)
    ensures IsScalar(c) && EncodeScalar(c) == s
  {
    if |s| == 1 then
      s[0] as int
    else if |s| == 2 then
      DecodeTwo(s);
      (s[0] as int - 0xC0) * 64 + (s[1] as int - 0x80)
    else if |s| == 3 then
      DecodeThree(s);
      ((s[0] as int - 0xE0) * 64 + (s[1] as int - 0x80)) * 64 + (s[2] as int - 0x80)
    else
      DecodeFour(s);
      (((s[0] as int - 0xF0) * 64 + (s[1] as int - 0x80)) * 64 + (s[2] as int - 0x80)) * 64 + (s[3] as int - 0x80)
  }

  /** Decoding undoes encoding: scalar values and well-formed characters correspond one to one. */
  lemma DecodeEncodeScalar(c: int)
    requires IsScalar(c)
    ensures DecodeChar(EncodeScalar(c)) == c
  {
    if c < 0x80 {
    } else if c < 0x800 {
    } else if c < 0x10000 {
      DivNested(c);
    } else {
      DivNested(c);
    }
  }

  predicate AllScalar(cs: seq<int>) {
    forall i | 0 <= i < |cs| :: IsScalar(cs[i])
  }

  /** A string of scalar values, encoded character by character. */
  function Encode(cs: seq<int>): Text
    requires AllScalar(cs)
  {
    if cs == [] then [] else EncodeScalar(cs[0]) + Encode(cs[1..])
  }

  lemma EncodeCons(c: int, cs: seq<int>)
    requires IsScalar(c) && AllScalar(cs)
    ensures AllScalar([c] + cs) && Encode([c] + cs) == EncodeScalar(c) + Encode(cs)
  {
    assert ([c] + cs)[0] == c && ([c] + cs)[1..] == cs;
  }

  /** Every encoded string is valid UTF-8. */
  lemma {:induction false} EncodeValid(cs: seq<int>)
    requires AllScalar(cs)
    ensures Valid(Encode(cs))
  {
    if cs != [] {
      EncodeValid(cs[1..]);
      var e, s := EncodeScalar(cs[0]), Encode(cs);
      assert s[..|e|] == e && s[|e|..] == Encode(cs[1..]);
    }
  }

  lemma Rejoin(s: Text, n: nat, x: Text, y: Text)
    requires n <= |s| && x == s[..n] && y == s[n..]
    ensures x + y == s
  {
  }

  /** The scalar values a valid byte sequence spells, one per character. */
  function Decode(s: Text): (cs: seq<int>)
    requires Valid(s)
    ensures AllScalar(cs)
    ensures Encode(cs) == s
    decreases |s|
  {
    if s == [] then []
    else
      ValidByScan(s);
      var n := Scan(s);
      var c := DecodeChar(s[..n]);
      var rest := Decode(s[n..]);
      EncodeCons(c, rest);
      Rejoin(s, n, EncodeScalar(c), Encode(rest));
      [c] + rest
  }

  /** Valid UTF-8 is exactly the set of encodings of scalar-value strings. */
  lemma ValidIffEncoding(s: Text)
    ensures Valid(s) <==> exists cs: seq<int> :: (AllScalar(cs)) && Encode(cs) == s
  {
    if Valid(s) {
      var cs := Decode(s);
      assert (AllScalar(cs)) && Encode(cs) == s;
    }
    forall cs: seq<int> | (AllScalar(cs)) && Encode(cs) == s
      ensures Valid(s)
    {
      EncodeValid(cs);
    }
  }

  /** Only bytes below 0x80: plain ASCII. */
  predicate AllAscii(s: Text) {
    forall i | 0 <= i < |s| :: s[i] < 0x80
  }

  /** An ASCII prefix neither makes nor breaks validity: each of its bytes is a character on its own. */
  lemma {:induction false} AsciiPrefix(p: Text, q: Text)
    requires AllAscii(p)
    ensures Valid(p + q) <==> Valid(q)
    decreases |p|
  {
    if p != [] {
      var s := p + q;
      ValidByScan(s);
      assert Scan(s) == 1;
      assert s[1..] == p[1..] + q;
      AsciiPrefix(p[1..], q);
    } else {
      assert p + q == q;
    }
  }

  /** Text made of bytes below 0x80 (plain ASCII) is always valid. */
  lemma AsciiValid(s: Text)
    requires AllAscii(s)
    ensures Valid(s)
  {
    AsciiPrefix(s, []);
    assert s + [] == s;
  }
}
