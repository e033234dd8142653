/** Bytes and the two ways the server turns them into text: the `(char)` cast of the signed byte
    that `readByte()` returns, used for the head, and one char per byte for bodies and files. */
module Bytes {
  type byte = x: int | 0 <= x < 256

  /** `(char) in.readByte()`: the byte is read as a signed value and widened, so a byte of 0x80 or
      more becomes a char between U+FF80 and U+FFFF. */
  function SignedChar(b: byte): (c: char)
    ensures b < 128 ==> c == b as char
    ensures b >= 128 ==> c as int == b + 0xFF00
  {
    if b < 128 then b as char else (b + 0xFF00) as char
  }

  /** The chars `(char) readByte()` yields for a run of bytes. */
  function HeadText(bs: seq<byte>): (s: string)
    ensures |s| == |bs|
    ensures forall i :: 0 <= i < |bs| ==> s[i] == SignedChar(bs[i])
  {
    seq(|bs|, i requires 0 <= i < |bs| => SignedChar(bs[i]))
  }

  /** Bytes read as text, one char per byte. */
  function Latin1(bs: seq<byte>): (s: string)
    ensures |s| == |bs|
    ensures forall i :: 0 <= i < |bs| ==> s[i] as int == bs[i]
  {
    seq(|bs|, i requires 0 <= i < |bs| => bs[i] as char)
  }

  /** Text written as bytes, one byte per char (the low eight bits, as `writeBytes` does). */
  function Latin1Bytes(s: string): (bs: seq<byte>)
    ensures |bs| == |s|
    ensures forall i :: 0 <= i < |s| ==> bs[i] == s[i] as int % 256
  {
    seq(|s|, i requires 0 <= i < |s| => s[i] as int % 256)
  }

  /** Every char fits in one byte. */
  predicate IsLatin1(s: string) {
    forall i :: 0 <= i < |s| ==> s[i] as int < 256
  }

  lemma {:induction false} Latin1BytesOfLatin1(bs: seq<byte>)
    ensures Latin1Bytes(Latin1(bs)) == bs
  {
  }

  /** Text that fits in bytes survives being written and read back. */
  lemma {:induction false} Latin1OfLatin1Bytes(s: string)
    requires IsLatin1(s)
    ensures Latin1(Latin1Bytes(s)) == s
  {
    var t := Latin1(Latin1Bytes(s));
    forall i | 0 <= i < |s| ensures t[i] == s[i] {
      assert t[i] as int == s[i] as int;
    }
  }

  lemma {:induction false} Latin1IsLatin1(bs: seq<byte>)
    ensures IsLatin1(Latin1(bs))
  {
  }

  lemma {:induction false} Latin1BytesAppend(a: string, b: string)
    ensures Latin1Bytes(a + b) == Latin1Bytes(a) + Latin1Bytes(b)
  {
  }

  /** The signed cast agrees with one char per byte on ASCII, and maps no other byte to CR or LF. */
  lemma {:induction false} SignedCharAscii(bs: seq<byte>)
    requires forall i :: 0 <= i < |bs| ==> bs[i] < 128
    ensures HeadText(bs) == Latin1(bs)
  {
  }

  lemma {:induction false} HeadTextAppend(a: seq<byte>, b: seq<byte>)
    ensures HeadText(a + b) == HeadText(a) + HeadText(b)
  {
  }
}
