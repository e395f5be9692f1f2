/** Just enough of UTF-8 (RFC 3629) and of the WHATWG windows-1252 decoder to explain how a
    correctly encoded character turns into several wrong ones when its bytes are read with
    the wrong charset. */
module Encoding {
  import opened Wrappers

  newtype byte = x: int | 0 <= x < 0x100

  /** `b` is a UTF-8 continuation byte, 10xxxxxx. */
  predicate IsContinuation(b: byte) {
    0x80 <= b < 0xC0
  }

  /** The UTF-8 encoding of one Unicode scalar value (section 3 of RFC 3629). */
  function Utf8Encode(c: char): (r: seq<byte>)
    ensures |r| == (if c as int < 0x80 then 1 else if c as int < 0x800 then 2 else if c as int < 0x1_0000 then 3 else 4)
    ensures |r| == 1 ==> r[0] as int == c as int
    ensures |r| > 1 ==> 0xC0 <= r[0] && !IsContinuation(r[0])
    ensures forall k :: 1 <= k < |r| ==> IsContinuation(r[k])
  {
    var n := c as int;
    if n < 0x80 then [n as byte]
    else if n < 0x800 then [(0xC0 + n / 0x40) as byte, (0x80 + n % 0x40) as byte]
    else if n < 0x1_0000 then
      [(0xE0 + n / 0x1000) as byte, (0x80 + n / 0x40 % 0x40) as byte, (0x80 + n % 0x40) as byte]
    else
      [(0xF0 + n / 0x4_0000) as byte, (0x80 + n / 0x1000 % 0x40) as byte,
       (0x80 + n / 0x40 % 0x40) as byte, (0x80 + n % 0x40) as byte]
  }

  /** The scalar value whose shortest UTF-8 encoding is exactly `b`, if there is one. */
  function Utf8DecodeScalar(b: seq<byte>): Option<char> {
    if |b| == 1 && b[0] < 0x80 then Some(b[0] as int as char)
    else if |b| == 2 && 0xC2 <= b[0] < 0xE0 && IsContinuation(b[1]) then
      Some(((b[0] as int - 0xC0) * 0x40 + (b[1] as int - 0x80)) as char)
    else if |b| == 3 && 0xE0 <= b[0] < 0xF0 && IsContinuation(b[1]) && IsContinuation(b[2]) then
      var n := (b[0] as int - 0xE0) * 0x1000 + (b[1] as int - 0x80) * 0x40 + (b[2] as int - 0x80);
      if 0x800 <= n && (n < 0xD800 || 0xE000 <= n) then Some(n as char) else None
    else if |b| == 4 && 0xF0 <= b[0] < 0xF5 && IsContinuation(b[1]) && IsContinuation(b[2])
      && IsContinuation(b[3]) then
      var n := (b[0] as int - 0xF0) * 0x4_0000 + (b[1] as int - 0x80) * 0x1000
        + (b[2] as int - 0x80) * 0x40 + (b[3] as int - 0x80);
      if 0x1_0000 <= n < 0x11_0000 then Some(n as char) else None
    else None
  }

  /** Encoding a character and decoding the bytes gives the character back. */
  lemma Utf8RoundTrip(c: char)
    ensures Utf8DecodeScalar(Utf8Encode(c)) == Some(c)
  {
    var n := c as int;
    if n >= 0x1_0000 {
      assert n == n / 0x4_0000 * 0x4_0000 + n / 0x1000 % 0x40 * 0x1000 + n / 0x40 % 0x40 * 0x40 + n % 0x40;
    } else if n >= 0x800 {
      assert n == n / 0x1000 * 0x1000 + n / 0x40 % 0x40 * 0x40 + n % 0x40;
    }
  }

  /** The character the WHATWG windows-1252 decoder gives one byte. Bytes 0x80-0x9F follow
      the code page's table (its five unassigned slots map to the C1 control of the same
      number); every other byte is the Latin-1 character of the same number. */
  function Cp1252Char(b: byte): (r: char)
    ensures b < 0x80 || 0xA0 <= b ==> r as int == b as int
    ensures 0x80 <= b < 0xA0 ==> r as int >= 0x80
  {
    match b
    case 0x80 => '€' case 0x82 => '‚' case 0x83 => 'ƒ' case 0x84 => '„'
    case 0x85 => '…' case 0x86 => '†' case 0x87 => '‡' case 0x88 => 'ˆ'
    case 0x89 => '‰' case 0x8A => 'Š' case 0x8B => '‹' case 0x8C => 'Œ'
    case 0x8E => 'Ž' case 0x91 => '‘' case 0x92 => '’' case 0x93 => '“'
    case 0x94 => '”' case 0x95 => '•' case 0x96 => '–' case 0x97 => '—'
    case 0x98 => '˜' case 0x99 => '™' case 0x9A => 'š' case 0x9B => '›'
    case 0x9C => 'œ' case 0x9E => 'ž' case 0x9F => 'Ÿ'
    case _ => b as int as char
  }

  /** The byte windows-1252 encodes `c` as, if it has one: the inverse of `Cp1252Char`. */
  function Cp1252Byte(c: char): Option<byte> {
    match c
    case '€' => Some(0x80) case '‚' => Some(0x82) case 'ƒ' => Some(0x83)
    case '„' => Some(0x84) case '…' => Some(0x85) case '†' => Some(0x86)
    case '‡' => Some(0x87) case 'ˆ' => Some(0x88) case '‰' => Some(0x89)
    case 'Š' => Some(0x8A) case '‹' => Some(0x8B) case 'Œ' => Some(0x8C)
    case 'Ž' => Some(0x8E) case '‘' => Some(0x91) case '’' => Some(0x92)
    case '“' => Some(0x93) case '”' => Some(0x94) case '•' => Some(0x95)
    case '–' => Some(0x96) case '—' => Some(0x97) case '˜' => Some(0x98)
    case '™' => Some(0x99) case 'š' => Some(0x9A) case '›' => Some(0x9B)
    case 'œ' => Some(0x9C) case 'ž' => Some(0x9E) case 'Ÿ' => Some(0x9F)
    case _ =>
      if c as int < 0x80 || 0xA0 <= c as int < 0x100
        || c as int in {0x81, 0x8D, 0x8F, 0x90, 0x9D}
      then Some(c as int as byte)
      else None
  }

  /** Every byte decodes to a character that encodes back to it, so the decoder is one-to-one. */
  lemma Cp1252RoundTrip(b: byte)
    ensures Cp1252Byte(Cp1252Char(b)) == Some(b)
  {
  }

  /** Reading a byte string as windows-1252, one character per byte. */
  function Cp1252Decode(bs: seq<byte>): (r: string)
    ensures |r| == |bs|
    ensures forall k :: 0 <= k < |bs| ==> r[k] == Cp1252Char(bs[k])
  {
    seq(|bs|, k requires 0 <= k < |bs| => Cp1252Char(bs[k]))
  }
}
