/** The wire format of Docker's attach and log stream: frames of an 8-byte header
    (stream type, three zero bytes, big-endian payload length) and a payload.
    The parser reads the length through a hexadecimal string; `BigEndian` is the
    arithmetic meaning that string is proved to have. */
module LogFormat {
  import opened Bytes

  const HEADER_LEN := 8
  const MAX_INT64 := 0x7fff_ffff_ffff_ffff

  // ----- big-endian numbers -----

  function BigEndian(bs: seq<byte>): nat {
    if bs == [] then 0 else BigEndian(bs[..|bs| - 1]) * 256 + bs[|bs| - 1] as int
  }

  /** The payload length in a header: its last four bytes, most significant first. */
  function PayloadLen(h: seq<byte>): nat
    requires |h| == HEADER_LEN
  {
    h[4] as int * 0x100_0000 + h[5] as int * 0x1_0000 + h[6] as int * 256 + h[7] as int
  }

  lemma BigEndianFour(bs: seq<byte>)
    requires |bs| == 4
    ensures BigEndian(bs) == bs[0] as int * 0x100_0000 + bs[1] as int * 0x1_0000 + bs[2] as int * 256 + bs[3] as int
  {
    assert bs[..3][..2] == bs[..2] && bs[..2][..1] == bs[..1] && bs[..1][..0] == [];
    assert BigEndian(bs[..1]) == bs[0] as int;
    assert BigEndian(bs[..2]) == bs[0] as int * 256 + bs[1] as int;
    assert BigEndian(bs[..3]) == BigEndian(bs[..2]) * 256 + bs[2] as int;
  }

  /** The header a Docker daemon writes before a payload of `n` bytes. */
  function EncodeHeader(stream: byte, n: nat): (h: seq<byte>)
    requires n < 0x1_0000_0000
    ensures |h| == HEADER_LEN && h[0] == stream
    ensures PayloadLen(h) == n
  {
    var (hi, lo) := (n / 0x1_0000, n % 0x1_0000);
    [stream, 0, 0, 0, (hi / 256) as byte, (hi % 256) as byte, (lo / 256) as byte, (lo % 256) as byte]
  }

  // ----- the hexadecimal detour of the parser -----

  function HexDigit(d: int): char
    requires 0 <= d < 16
  {
    "0123456789abcdef"[d]
  }

  function HexDigitValue(c: char): Option<nat> {
    if '0' <= c <= '9' then Some(c as int - '0' as int)
    else if 'a' <= c <= 'f' then Some(c as int - 'a' as int + 10)
    else if 'A' <= c <= 'F' then Some(c as int - 'A' as int + 10)
    else None
  }

  /** `fmt.Sprintf("%x", bs)`: two lower-case digits a byte. */
  function FormatHex(bs: seq<byte>): string {
    if bs == [] then ""
    else
      var b := bs[|bs| - 1] as int;
      FormatHex(bs[..|bs| - 1]) + [HexDigit(b / 16), HexDigit(b % 16)]
  }

  function HexValue(s: string): Option<nat> {
    if s == "" then Some(0)
    else
      match (HexValue(s[..|s| - 1]), HexDigitValue(s[|s| - 1]))
      case (Some(v), Some(d)) => Some(v * 16 + d)
      case _ => None
  }

  /** `strconv.ParseInt(s, 16, 64)` on a string without a sign. */
  function ParseInt16(s: string): Option<nat> {
    if s == "" then None
    else
      match HexValue(s)
      case Some(v) => if v <= MAX_INT64 then Some(v) else None
      case None => None
  }

  lemma HexDigitRoundTrip(d: int)
    requires 0 <= d < 16
    ensures HexDigitValue(HexDigit(d)) == Some(d)
  {
  }

  lemma HexOneDigit(s: string, d: int)
    requires HexValue(s).Some? && 0 <= d < 16
    ensures HexValue(s + [HexDigit(d)]) == Some(HexValue(s).value * 16 + d)
  {
    hide HexDigit;
    hide HexDigitValue;
    HexDigitRoundTrip(d);
    var longer := s + [HexDigit(d)];
    assert longer[..|longer| - 1] == s && longer[|longer| - 1] == HexDigit(d);
  }

  lemma HexAppend(s: string, b: byte)
    requires HexValue(s).Some?
    ensures HexValue(s + [HexDigit(b as int / 16), HexDigit(b as int % 16)]) == Some(HexValue(s).value * 256 + b as int)
  {
    hide HexDigit;
    hide HexValue;
    var hi, lo := b as int / 16, b as int % 16;
    HexOneDigit(s, hi);
    HexOneDigit(s + [HexDigit(hi)], lo);
    assert s + [HexDigit(hi)] + [HexDigit(lo)] == s + [HexDigit(hi), HexDigit(lo)];
  }

  lemma {:induction false} HexMeansBigEndian(bs: seq<byte>)
    ensures HexValue(FormatHex(bs)) == Some(BigEndian(bs))
  {
    hide HexDigit;
    if bs != [] {
      hide HexValue;
      var init := bs[..|bs| - 1];
      HexMeansBigEndian(init);
      HexAppend(FormatHex(init), bs[|bs| - 1]);
    }
  }

  lemma {:induction false} HexLength(bs: seq<byte>)
    ensures |FormatHex(bs)| == 2 * |bs|
  {
    if bs != [] {
      HexLength(bs[..|bs| - 1]);
    }
  }

  /** The payload length the parser computes from a header. */
  function MsgLen(header: seq<byte>): Option<nat>
    requires |header| == HEADER_LEN
  {
    ParseInt16(FormatHex(header[4..]))
  }

  /** Formatting the length bytes in hexadecimal and parsing them back never fails
      and yields their big-endian value. */
  lemma MsgLenIsPayloadLen(header: seq<byte>)
    requires |header| == HEADER_LEN
    ensures MsgLen(header) == Some(PayloadLen(header))
  {
    HexLength(header[4..]);
    HexMeansBigEndian(header[4..]);
    BigEndianFour(header[4..]);
  }

  // ----- frames -----

  datatype FrameData = FrameData(stream: byte, payload: seq<byte>)

  /** A frame of standard output (1) or standard error (2). */
  type Frame = f: FrameData | (f.stream == 1 || f.stream == 2) && |f.payload| < 0x1_0000_0000
    witness FrameData(1, [])

  function EncodeFrame(f: Frame): seq<byte> {
    EncodeHeader(f.stream, |f.payload|) + f.payload
  }

  function Encode(frames: seq<Frame>): seq<byte> {
    if frames == [] then [] else EncodeFrame(frames[0]) + Encode(frames[1..])
  }

  function Payloads(frames: seq<Frame>): seq<byte> {
    if frames == [] then [] else frames[0].payload + Payloads(frames[1..])
  }
}
