/** Byte-level vocabulary shared by the codec modules. */
module Bytes {

  type Byte = x: int | 0 <= x < 256

  /** A 32-bit unsigned machine word. */
  type U32 = x: int | 0 <= x < 0x1_0000_0000

  /** `w << 8 | c` for a word whose leading byte is zero. */
  function Append(w: int, c: Byte): (r: int) {
    w * 256 + c
  }

  /** `w << 8 | c` in 32 bits: the window slides by one byte. */
  function Slide(w: U32, c: Byte): (r: U32) {
    Append(w % 0x100_0000, c)
  }

  /** Sliding forgets the leading byte and keeps the other three. */
  lemma SlideDrops(b: int, w: int, c: Byte)
    requires 0 <= b < 256 && 0 <= w < 0x100_0000
    ensures Slide(b * 0x100_0000 + w, c) == Append(w, c)
  {
  }

  /** The big-endian word held by the first four bytes of `s`. */
  function Word(s: seq<Byte>): (w: U32)
    requires |s| >= 4
  {
    Append(Append(Append(s[0], s[1]), s[2]), s[3])
  }

  /** The four bytes of `w`, most significant first. */
  function WordBytes(w: U32): (s: seq<Byte>)
    ensures |s| == 4 && Word(s) == w
  {
    var w1 := w / 256;
    var w2 := w1 / 256;
    [w2 / 256, w2 % 256, w1 % 256, w % 256]
  }

  const ZEROS: seq<Byte> := [0, 0, 0, 0]

  lemma WordReadsBack(s: seq<Byte>)
    requires |s| == 4
    ensures WordBytes(Word(s)) == s
  {
    var w := Word(s);
    assert w / 256 == Append(Append(s[0], s[1]), s[2]) && w / 256 / 256 == Append(s[0], s[1]);
  }

  function Zeros(n: nat): (z: seq<Byte>)
    ensures |z| == n && forall i :: 0 <= i < n ==> z[i] == 0
  {
    if n == 0 then [] else Zeros(n - 1) + [0]
  }

  /** What a series of writes adds up to. */
  function Concat(writes: seq<seq<Byte>>): (s: seq<Byte>) {
    if writes == [] then [] else Concat(writes[..|writes| - 1]) + writes[|writes| - 1]
  }
}
