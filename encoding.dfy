/**
 * The two renderings of PNG bytes the clipboard watcher uses: Node's
 * `Buffer.toString("hex")` for the fingerprint head and
 * `Buffer.toString("base64")` for the stored data URL.
 */
module Encoding {

  type byte = x: int | 0 <= x < 256

  /** One lower-case hexadecimal digit. */
  function HexDigit(d: nat): char
    requires d < 16
  {
    if d < 10 then ('0' as int + d) as char else ('a' as int + d - 10) as char
  }

  /** The value of a lower-case hexadecimal digit (0 for any other character). */
  function HexValue(c: char): (v: nat)
    ensures v < 16
  {
    if '0' <= c <= '9' then c as int - '0' as int
    else if 'a' <= c <= 'f' then c as int - 'a' as int + 10
    else 0
  }

  /** `Buffer.toString("hex")`: two lower-case digits per byte, high nibble first. */
  function Hex(bs: seq<byte>): (r: string)
    ensures |r| == 2 * |bs|
  {
    if bs == [] then "" else [HexDigit(bs[0] / 16), HexDigit(bs[0] % 16)] + Hex(bs[1..])
  }

  /** Reads a hex string back into bytes. */
  function Unhex(s: string): (bs: seq<byte>)
    requires |s| % 2 == 0
    ensures |bs| == |s| / 2
  {
    if s == [] then [] else [HexValue(s[0]) * 16 + HexValue(s[1])] + Unhex(s[2..])
  }

  /** Hex decoding inverts hex encoding. */
  lemma {:induction false} UnhexHex(bs: seq<byte>)
    ensures Unhex(Hex(bs)) == bs
  {
    if bs != [] {
      var s := Hex(bs);
      assert s[2..] == Hex(bs[1..]);
      UnhexHex(bs[1..]);
    }
  }

  /** So equal hex renderings come from equal bytes. */
  lemma HexInjective(a: seq<byte>, b: seq<byte>)
    requires Hex(a) == Hex(b)
    ensures a == b
  {
    UnhexHex(a);
    UnhexHex(b);
  }

  /** One character of the standard base64 alphabet. */
  function Base64Digit(d: nat): char
    requires d < 64
  {
    if d < 26 then ('A' as int + d) as char
    else if d < 52 then ('a' as int + d - 26) as char
    else if d < 62 then ('0' as int + d - 52) as char
    else if d == 62 then '+'
    else '/'
  }

  /** `Buffer.toString("base64")`: four characters per three bytes, the last group padded with '='. */
  function Base64(bs: seq<byte>): (r: string)
    ensures |r| == 4 * ((|bs| + 2) / 3)
  {
    if |bs| == 0 then ""
    else if |bs| == 1 then
      [Base64Digit(bs[0] / 4), Base64Digit(bs[0] % 4 * 16), '=', '=']
    else if |bs| == 2 then
      [Base64Digit(bs[0] / 4), Base64Digit(bs[0] % 4 * 16 + bs[1] / 16), Base64Digit(bs[1] % 16 * 4), '=']
    else
      [Base64Digit(bs[0] / 4), Base64Digit(bs[0] % 4 * 16 + bs[1] / 16),
       Base64Digit(bs[1] % 16 * 4 + bs[2] / 64), Base64Digit(bs[2] % 64)]
      + Base64(bs[3..])
  }
}
