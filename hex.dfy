/** The text of XsMessage_toHexString: two upper-case hexadecimal digits per byte ("%02X"),
    a space after every byte but the last. */
module Hex {
  import opened Bytes

  /** The upper-case hexadecimal digit of a value below 16. */
  function Digit(d: nat): (c: char)
    requires d < 16
    ensures '0' <= c <= '9' || 'A' <= c <= 'F'
  {
    if d < 10 then ('0' as int + d) as char else ('A' as int + d - 10) as char
  }

  /** The value of a hexadecimal digit; 0 for any other character. */
  function DigitValue(c: char): nat
  {
    if '0' <= c <= '9' then c as int - '0' as int
    else if 'A' <= c <= 'F' then c as int - 'A' as int + 10
    else 0
  }

  /** "%02X": the high nibble's digit, then the low nibble's. */
  function Hex2(b: byte): (s: string)
    ensures |s| == 2
  {
    [Digit(b as nat / 16), Digit(b as nat % 16)]
  }

  /** The two digits of a byte read back as that byte. */
  lemma Hex2Decodes(b: byte)
    ensures 16 * DigitValue(Hex2(b)[0]) + DigitValue(Hex2(b)[1]) == b as nat
  {
    var hi, lo := b as nat / 16, b as nat % 16;
    assert DigitValue(Digit(hi)) == hi;
    assert DigitValue(Digit(lo)) == lo;
  }

  /** Each byte as "%02X ", one after the other. */
  function Spaced(bs: seq<byte>): (s: string)
    ensures |s| == 3 * |bs|
  {
    if |bs| == 0 then [] else Spaced(bs[..|bs| - 1]) + Hex2(bs[|bs| - 1]) + [' ']
  }

  /** The text of toHexString for the bytes shown: "%02X " for every byte but the last,
      "%02X" for the last, nothing for no bytes. */
  function HexText(bs: seq<byte>): string
  {
    if |bs| == 0 then [] else Spaced(bs[..|bs| - 1]) + Hex2(bs[|bs| - 1])
  }

  /** Byte `k` is spelled at characters 3k and 3k + 1 and followed by a space. */
  lemma {:induction false} SpacedAt(bs: seq<byte>, k: nat)
    requires k < |bs|
    ensures Spaced(bs)[3 * k..3 * k + 2] == Hex2(bs[k]) && Spaced(bs)[3 * k + 2] == ' '
  {
    var init := bs[..|bs| - 1];
    if k < |init| {
      SpacedAt(init, k);
      assert Spaced(bs)[..3 * |init|] == Spaced(init);
      assert init[k] == bs[k];
    }
  }

  /** n bytes give 3n - 1 characters, and no byte gives none. */
  lemma HexTextLength(bs: seq<byte>)
    ensures |HexText(bs)| == if |bs| == 0 then 0 else 3 * |bs| - 1
  {
  }

  /** Byte `k` of the shown bytes is spelled at characters 3k and 3k + 1; a space follows
      every byte but the last. */
  lemma HexTextAt(bs: seq<byte>, k: nat)
    requires k < |bs|
    ensures 3 * k + 2 <= |HexText(bs)|
    ensures HexText(bs)[3 * k..3 * k + 2] == Hex2(bs[k])
    ensures k + 1 < |bs| ==> HexText(bs)[3 * k + 2] == ' '
  {
    var init := bs[..|bs| - 1];
    if k < |init| {
      SpacedAt(init, k);
      assert HexText(bs)[..3 * |init|] == Spaced(init);
      assert init[k] == bs[k];
    }
  }

  /** Reads the byte spelled at characters 3k and 3k + 1, for every k the text has room for. */
  function ParseHex(s: string): (bs: seq<byte>)
    ensures |bs| == (|s| + 1) / 3
  {
    seq((|s| + 1) / 3, k requires 0 <= k => if 3 * k + 1 < |s| then Wrap(16 * DigitValue(s[3 * k]) + DigitValue(s[3 * k + 1])) else 0)
  }

  /** The text of toHexString reads back as the bytes shown. */
  lemma ParseHexText(bs: seq<byte>)
    ensures ParseHex(HexText(bs)) == bs
  {
    var t := HexText(bs);
    HexTextLength(bs);
    forall k | 0 <= k < |bs|
      ensures ParseHex(t)[k] == bs[k]
    {
      HexTextAt(bs, k);
      var h := Hex2(bs[k]);
      assert t[3 * k] == h[0] && t[3 * k + 1] == h[1];
      Hex2Decodes(bs[k]);
      assert ParseHex(t)[k] == Wrap(16 * DigitValue(h[0]) + DigitValue(h[1]));
    }
    assert |ParseHex(t)| == |bs|;
  }

  /** The sprintf loop of toHexString over the bytes shown. */
  method FormatHex(bs: seq<byte>) returns (s: string)
    ensures s == HexText(bs)
  {
    if |bs| == 0 {
      return [];
    }
    s := [];
    var k := 0;
    while k < |bs| - 1
      invariant 0 <= k <= |bs| - 1
      invariant s == Spaced(bs[..k])
    {
      assert bs[..k + 1][..k] == bs[..k];
      s := s + Hex2(bs[k]) + [' '];
      k := k + 1;
    }
    s := s + Hex2(bs[|bs| - 1]);
  }
}
