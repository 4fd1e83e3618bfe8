/** Bytes, 32-bit words and 32-byte digests, with the big-endian encodings the VM uses. */
module Bytes {

  type Byte = x: int | 0 <= x < 256

  /** A uint32: every operation that can leave the range wraps explicitly. */
  type Word = x: int | 0 <= x < 0x1_0000_0000

  /** A uint64, used for the step counter and for length prefixes. */
  type DWord = x: int | 0 <= x < 0x1_0000_0000_0000_0000

  type Digest = d: seq<Byte> | |d| == 32 witness
    [0, 0, 0, 0, 0, 0, 0, 0, 0, 0, 0, 0, 0, 0, 0, 0, 0, 0, 0, 0, 0, 0, 0, 0, 0, 0, 0, 0, 0, 0, 0, 0]

  const ZERO_DIGEST: Digest :=
    [0, 0, 0, 0, 0, 0, 0, 0, 0, 0, 0, 0, 0, 0, 0, 0, 0, 0, 0, 0, 0, 0, 0, 0, 0, 0, 0, 0, 0, 0, 0, 0]

  function Wrap(x: int): Word {
    x % 0x1_0000_0000
  }

  function WordBytes(w: Word): (s: seq<Byte>)
    ensures |s| == 4
  {
    [w / 0x100_0000, w / 0x1_0000 % 256, w / 0x100 % 256, w % 256]
  }

  function BytesWord(s: seq<Byte>): Word
    requires |s| == 4
  {
    var a: int, b: int, c: int, d: int := s[0], s[1], s[2], s[3];
    ((a * 256 + b) * 256 + c) * 256 + d
  }

  lemma BytesOfWord(w: Word)
    ensures BytesWord(WordBytes(w)) == w
  {
    var x: int := w / 0x100;
    var y: int := x / 0x100;
    assert w / 0x1_0000 == y && w / 0x100_0000 == y / 0x100;
  }

  lemma WordOfBytes(s: seq<Byte>)
    requires |s| == 4
    ensures WordBytes(BytesWord(s)) == s
  {
    var a: int, b: int, c: int := s[0], s[1], s[2];
    var w := BytesWord(s);
    assert w / 0x100 == (a * 256 + b) * 256 + c;
    assert w / 0x1_0000 == a * 256 + b;
    assert w / 0x100_0000 == a;
  }

  function DWordBytes(d: DWord): (s: seq<Byte>)
    ensures |s| == 8
  {
    WordBytes(d / 0x1_0000_0000) + WordBytes(d % 0x1_0000_0000)
  }

  function BytesDWord(s: seq<Byte>): DWord
    requires |s| == 8
  {
    BytesWord(s[..4]) * 0x1_0000_0000 + BytesWord(s[4..])
  }

  lemma BytesOfDWord(d: DWord)
    ensures BytesDWord(DWordBytes(d)) == d
  {
    var s := DWordBytes(d);
    assert s[..4] == WordBytes(d / 0x1_0000_0000) && s[4..] == WordBytes(d % 0x1_0000_0000);
    BytesOfWord(d / 0x1_0000_0000);
    BytesOfWord(d % 0x1_0000_0000);
  }
}
