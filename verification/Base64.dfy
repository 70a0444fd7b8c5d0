/** The standard Base64 of section 4 of RFC 4648, on byte strings. */
module Base64 {
  import opened Bytes

  const PAD: byte := '=' as byte

  function Digit(v: int): byte
    requires 0 <= v < 64
  {
    (if v < 26 then 'A' as int + v
     else if v < 52 then 'a' as int + v - 26
     else if v < 62 then '0' as int + v - 52
     else if v == 62 then '+' as int
     else '/' as int) as byte
  }

  function Value(b: byte): Option<nat> {
    if 'A' as byte <= b <= 'Z' as byte then Some(b as int - 'A' as int)
    else if 'a' as byte <= b <= 'z' as byte then Some(b as int - 'a' as int + 26)
    else if '0' as byte <= b <= '9' as byte then Some(b as int - '0' as int + 52)
    else if b == '+' as byte then Some(62)
    else if b == '/' as byte then Some(63)
    else None
  }

  /** The alphabet of table 1 of RFC 4648, sixteen digits a row. */
  lemma DigitIsStandard(v: int)
    requires 0 <= v < 64
    ensures Digit(v) as int
            == (if v < 16 then "ABCDEFGHIJKLMNOP"[v]
                else if v < 32 then "QRSTUVWXYZabcdef"[v - 16]
                else if v < 48 then "ghijklmnopqrstuv"[v - 32]
                else "wxyz0123456789+/"[v - 48]) as int
  {
  }

  lemma DigitValue(v: int)
    requires 0 <= v < 64
    ensures Value(Digit(v)) == Some(v) && Digit(v) != PAD
  {
  }

  lemma ValueDigit(b: byte)
    requires Value(b).Some?
    ensures Value(b).value < 64 && Digit(Value(b).value) == b && b != PAD
  {
  }

  /** The four digits of one to three bytes. */
  function EncodeGroup(g: seq<byte>): (cs: seq<byte>)
    requires 1 <= |g| <= 3
    ensures |cs| == 4
  {
    var b0 := g[0] as int;
    var b1 := if |g| > 1 then g[1] as int else 0;
    var b2 := if |g| > 2 then g[2] as int else 0;
    [Digit(b0 / 4), Digit(b0 % 4 * 16 + b1 / 16),
     if |g| > 1 then Digit(b1 % 16 * 4 + b2 / 64) else PAD,
     if |g| > 2 then Digit(b2 % 64) else PAD]
  }

  function Encode(bs: seq<byte>): seq<byte> {
    if bs == [] then []
    else if |bs| <= 3 then EncodeGroup(bs)
    else EncodeGroup(bs[..3]) + Encode(bs[3..])
  }

  /** One group of four digits, the last of the text when `last`. Padding digits must
      end the text and unused bits must be zero. */
  function DecodeGroup(c0: byte, c1: byte, c2: byte, c3: byte, last: bool): Option<seq<byte>> {
    match (Value(c0), Value(c1))
    case (Some(v0), Some(v1)) =>
      assert v0 < 64 && v1 < 64;
      var first := (v0 * 4 + v1 / 16) as byte;
      if c3 == PAD then
        if !last then None
        else if c2 == PAD then if v1 % 16 == 0 then Some([first]) else None
        else
          (match Value(c2)
           case Some(v2) => if v2 % 4 == 0 then Some([first, (v1 % 16 * 16 + v2 / 4) as byte]) else None
           case None => None)
      else
        (match (Value(c2), Value(c3))
         case (Some(v2), Some(v3)) => Some([first, (v1 % 16 * 16 + v2 / 4) as byte, (v2 % 4 * 64 + v3) as byte])
         case _ => None)
    case _ => None
  }

  function Decode(cs: seq<byte>): Option<seq<byte>> {
    if cs == [] then Some([])
    else if |cs| < 4 then None
    else if |cs| == 4 then DecodeGroup(cs[0], cs[1], cs[2], cs[3], true)
    else
      match (DecodeGroup(cs[0], cs[1], cs[2], cs[3], false), Decode(cs[4..]))
      case (Some(group), Some(rest)) => Some(group + rest)
      case _ => None
  }

  // ----- one group -----

  lemma Sextets(x: nat, y: nat, z: nat)
    requires x < 256 && y < 256 && z < 256
    ensures var v0, v1, v2, v3 := x / 4, x % 4 * 16 + y / 16, y % 16 * 4 + z / 64, z % 64;
            && v0 < 64 && v1 < 64 && v2 < 64 && v3 < 64
            && v0 * 4 + v1 / 16 == x && v1 % 16 * 16 + v2 / 4 == y && v2 % 4 * 64 + v3 == z
  {
    assert (x % 4 * 16 + y / 16) / 16 == x % 4 && (x % 4 * 16 + y / 16) % 16 == y / 16;
    assert (y % 16 * 4 + z / 64) / 4 == y % 16 && (y % 16 * 4 + z / 64) % 4 == z / 64;
  }

  lemma Octets(v0: nat, v1: nat, v2: nat, v3: nat)
    requires v0 < 64 && v1 < 64 && v2 < 64 && v3 < 64
    ensures var x, y, z := v0 * 4 + v1 / 16, v1 % 16 * 16 + v2 / 4, v2 % 4 * 64 + v3;
            && x < 256 && y < 256 && z < 256
            && x / 4 == v0 && x % 4 * 16 + y / 16 == v1 && y % 16 * 4 + z / 64 == v2 && z % 64 == v3
  {
    assert (v0 * 4 + v1 / 16) / 4 == v0 && (v0 * 4 + v1 / 16) % 4 == v1 / 16;
    assert (v1 % 16 * 16 + v2 / 4) / 16 == v1 % 16 && (v1 % 16 * 16 + v2 / 4) % 16 == v2 / 4;
  }

  lemma GroupRoundTrip(g: seq<byte>, last: bool)
    requires 1 <= |g| <= 3 && (|g| < 3 ==> last)
    ensures var cs := EncodeGroup(g); DecodeGroup(cs[0], cs[1], cs[2], cs[3], last) == Some(g)
  {
    hide Digit;
    hide Value;
    var x := g[0] as int;
    var y := if |g| > 1 then g[1] as int else 0;
    var z := if |g| > 2 then g[2] as int else 0;
    Sextets(x, y, z);
    DigitValue(x / 4);
    DigitValue(x % 4 * 16 + y / 16);
    DigitValue(y % 16 * 4 + z / 64);
    DigitValue(z % 64);
    if |g| == 1 {
      assert g == [g[0]];
    } else if |g| == 2 {
      assert g == [g[0], g[1]];
    } else {
      assert g == [g[0], g[1], g[2]];
    }
  }

  lemma GroupIsCanonical(c0: byte, c1: byte, c2: byte, c3: byte, last: bool)
    requires DecodeGroup(c0, c1, c2, c3, last).Some?
    ensures var g := DecodeGroup(c0, c1, c2, c3, last).value;
            1 <= |g| <= 3 && (|g| < 3 ==> last) && EncodeGroup(g) == [c0, c1, c2, c3]
  {
    hide Digit;
    hide Value;
    ValueDigit(c0);
    ValueDigit(c1);
    var v2, v3: nat := 0, 0;
    if Value(c2).Some? {
      ValueDigit(c2);
      v2 := Value(c2).value;
    }
    if Value(c3).Some? {
      ValueDigit(c3);
      v3 := Value(c3).value;
    }
    Octets(Value(c0).value, Value(c1).value, v2, v3);
  }

  /** Section 4 of RFC 4648: three bytes, taken as one 24-bit number, are its four
      6-bit digits; missing bytes are zero bits, and digits without a bit are padding. */
  lemma GroupIsOneNumber(g: seq<byte>)
    requires 1 <= |g| <= 3
    ensures var cs := EncodeGroup(g);
            var at := (k: int) => if 0 <= k < |g| then g[k] as int else 0;
            var digit := (k: int) => if 0 <= k <= |g| then Value(cs[k]).value else 0;
            && (forall k | 0 <= k < 4 :: if k <= |g| then Value(cs[k]).Some? else cs[k] == PAD)
            && at(0) * 0x1_0000 + at(1) * 0x100 + at(2)
               == digit(0) * 0x4_0000 + digit(1) * 0x1000 + digit(2) * 0x40 + digit(3)
  {
    hide Digit;
    hide Value;
    var x := g[0] as int;
    var y := if |g| > 1 then g[1] as int else 0;
    var z := if |g| > 2 then g[2] as int else 0;
    Sextets(x, y, z);
    DigitValue(x / 4);
    DigitValue(x % 4 * 16 + y / 16);
    DigitValue(y % 16 * 4 + z / 64);
    DigitValue(z % 64);
  }

  // ----- whole texts -----

  /** The text "fooba" of section 10 of RFC 4648. */
  lemma RfcText()
    ensures Encode(['f' as byte, 'o' as byte, 'o' as byte, 'b' as byte, 'a' as byte])
            == ['Z' as byte, 'm' as byte, '9' as byte, 'v' as byte, 'Y' as byte, 'm' as byte, 'E' as byte, PAD]
  {
    var bs: seq<byte> := ['f' as byte, 'o' as byte, 'o' as byte, 'b' as byte, 'a' as byte];
    assert bs[..3] == ['f' as byte, 'o' as byte, 'o' as byte];
    assert bs[3..] == ['b' as byte, 'a' as byte];
  }

  /** Decoding what was encoded gives it back, for every byte string. */
  lemma {:induction false} RoundTrip(bs: seq<byte>)
    ensures Decode(Encode(bs)) == Some(bs)
  {
    if bs == [] {
    } else if |bs| <= 3 {
      GroupRoundTrip(bs, true);
    } else {
      var head, rest := bs[..3], bs[3..];
      RoundTrip(rest);
      GroupRoundTrip(head, false);
      var cs := Encode(bs);
      assert cs[4..] == Encode(rest) && cs[..4] == EncodeGroup(head);
      assert Encode(rest) != [];
      assert bs == head + rest;
    }
  }

  /** A text that decodes is the one encoding of its bytes. */
  lemma {:induction false} DecodeIsCanonical(cs: seq<byte>)
    requires Decode(cs).Some?
    ensures Encode(Decode(cs).value) == cs
  {
    hide EncodeGroup;
    hide DecodeGroup;
    if cs == [] {
    } else if |cs| == 4 {
      GroupIsCanonical(cs[0], cs[1], cs[2], cs[3], true);
    } else {
      GroupIsCanonical(cs[0], cs[1], cs[2], cs[3], false);
      DecodeIsCanonical(cs[4..]);
      var g := DecodeGroup(cs[0], cs[1], cs[2], cs[3], false).value;
      var rest := Decode(cs[4..]).value;
      assert rest != [];
      assert (g + rest)[..3] == g && (g + rest)[3..] == rest;
      assert cs == [cs[0], cs[1], cs[2], cs[3]] + cs[4..];
    }
  }
}
