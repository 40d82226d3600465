/**
 The `%x` verb of Go's fmt package applied to a byte slice: two lowercase
 hexadecimal digits per byte, high nibble first, no separators.
 */
module Hex {
  import opened Bytes

  /** The outcome of reading hex text back: the bytes it spells, or a rejection. */
  datatype Decoding = Malformed | Decoded(bytes: Text)

  /** '0'-'9' then 'a'-'f'. */
  function Digit(v: nat): (d: byte)
    requires v < 16
    ensures IsLowerHex(d)
  {
    if v < 10 then (48 + v) as byte else (87 + v) as byte
  }

  predicate IsLowerHex(d: byte) {
    48 <= d <= 57 || 97 <= d <= 102
  }

  /** The value of a lowercase hexadecimal digit; the inverse of Digit. */
  function DigitValue(d: byte): (v: nat)
    requires IsLowerHex(d)
    ensures v < 16 && Digit(v) == d
  {
    if d <= 57 then d as nat - 48 else d as nat - 87
  }

  /** `fmt.Sprintf("%x", bs)`. */
  function Encode(bs: Text): (r: Text)
    ensures |r| == 2 * |bs|
    ensures forall i | 0 <= i < |r| :: IsLowerHex(r[i])
  {
    if bs == [] then []
    else [Digit(bs[0] as nat / 16), Digit(bs[0] as nat % 16)] + Encode(bs[1..])
  }

  /** Reads back an even run of lowercase hex digits; anything else is rejected. */
  function Decode(t: Text): (r: Decoding)
    ensures r.Decoded? ==> 2 * |r.bytes| == |t|
  {
    if t == [] then Decoded([])
    else if |t| == 1 || !IsLowerHex(t[0]) || !IsLowerHex(t[1]) then Malformed
    else
      match Decode(t[2..])
      case Malformed => Malformed
      case Decoded(rest) => Decoded([(16 * DigitValue(t[0]) + DigitValue(t[1])) as byte] + rest)
  }

  /** Byte `i` of the input becomes digits `2i` and `2i + 1`: high nibble, then low nibble. */
  lemma {:induction false} EncodeDigits(bs: Text, i: nat)
    requires i < |bs|
    ensures Encode(bs)[2 * i] == Digit(bs[i] as nat / 16)
    ensures Encode(bs)[2 * i + 1] == Digit(bs[i] as nat % 16)
  {
    if i > 0 {
      EncodeDigits(bs[1..], i - 1);
      assert Encode(bs)[2..] == Encode(bs[1..]);
    }
  }

  /** A byte is its high nibble times 16 plus its low nibble, and back. */
  lemma Nibbles(hi: nat, lo: nat)
    requires hi < 16 && lo < 16
    ensures (16 * hi + lo) / 16 == hi && (16 * hi + lo) % 16 == lo
  {
  }

  /** Every byte is recoverable from its two digits: the encoding loses nothing. */
  lemma {:induction false} DecodeEncode(bs: Text)
    ensures Decode(Encode(bs)) == Decoded(bs)
  {
    if bs != [] {
      var t := Encode(bs);
      DecodeEncode(bs[1..]);
      assert t[2..] == Encode(bs[1..]);
      var hi, lo := bs[0] as nat / 16, bs[0] as nat % 16;
      assert DigitValue(t[0]) == hi && DigitValue(t[1]) == lo;
      assert (16 * hi + lo) as byte == bs[0];
      assert [bs[0]] + bs[1..] == bs;
    }
  }

  /** Every text Decode accepts is the encoding of what it decodes to. */
  lemma {:induction false} EncodeDecode(t: Text)
    requires Decode(t).Decoded?
    ensures Encode(Decode(t).bytes) == t
  {
    if t != [] {
      EncodeDecode(t[2..]);
      var hi, lo := DigitValue(t[0]), DigitValue(t[1]);
      var b := (16 * hi + lo) as byte;
      Nibbles(hi, lo);
      assert b as nat / 16 == hi && b as nat % 16 == lo;
      assert Decode(t).bytes == [b] + Decode(t[2..]).bytes;
      assert t == [t[0], t[1]] + t[2..];
    }
  }
}
