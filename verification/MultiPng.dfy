/**
 PNG images whose zlib stream is cut into several IDAT chunks: the encoder joins the chunks
 and stores their lengths and CRCs, `OwnFileOutputStreamMultiPNG` cuts the re-encoded stream
 again.  Chunk layout: section 5.3 of the W3C PNG Specification, Second Edition.

 The length of chunk 0 is counted without the two bytes of the zlib header, and the CRC
 stored with chunk i is that of chunk i - 1, which precedes it in the file.
 */
module MultiPng {
  import opened Bytes
  import opened Wrappers
  import opened Vlints

  const IDAT: seq<Byte> := [0x49, 0x44, 0x41, 0x54]

  datatype Idat = Idat(crc: U32, len: U32)

  /** What stands between the data of two chunks: the CRC of the first, the length and name of the second. */
  function Seam(c: Idat): (s: seq<Byte>)
    ensures |s| == 12
  {
    WordBytes(c.crc) + WordBytes(c.len) + IDAT
  }

  // ---- Cutting

  /** Position in the chunks: room for `toRead` more bytes in chunk `idx`. */
  datatype Cursor = Cursor(idx: nat, toRead: nat)

  datatype Cut = Cut(out: seq<Byte>, cursor: Cursor)

  /** What is written for `data` from a cursor on; beyond the last chunk nothing is. */
  function Run(cs: seq<Idat>, at: Cursor, data: seq<Byte>): (r: Cut)
    decreases |cs| - at.idx
  {
    if at.idx >= |cs| then Cut([], Cursor(|cs|, 0))
    else if |data| <= at.toRead then Cut(data, at.(toRead := at.toRead - |data|))
    else if at.idx + 1 >= |cs| then Cut(data[..at.toRead], Cursor(|cs|, 0))
    else
      var next := cs[at.idx + 1];
      var rest := Run(cs, Cursor(at.idx + 1, next.len), data[at.toRead..]);
      Cut(data[..at.toRead] + Seam(next) + rest.out, rest.cursor)
  }

  /** The output depends only on the concatenation of what is written. */
  lemma {:induction false} RunAppend(cs: seq<Idat>, at: Cursor, a: seq<Byte>, b: seq<Byte>)
    ensures var first := Run(cs, at, a); var second := Run(cs, first.cursor, b);
      Run(cs, at, a + b) == Cut(first.out + second.out, second.cursor)
    decreases |cs| - at.idx
  {
    hide Seam;
    if at.idx >= |cs| {
      assert [] + Run(cs, at, b).out == [];
    } else if |a| <= at.toRead {
      RunInside(cs, at, a, b);
    } else {
      var t := at.toRead;
      assert (a + b)[..t] == a[..t] && (a + b)[t..] == a[t..] + b;
      if at.idx + 1 < |cs| {
        var next := Cursor(at.idx + 1, cs[at.idx + 1].len);
        RunAppend(cs, next, a[t..], b);
        var x, y := Run(cs, next, a[t..]).out, Run(cs, Run(cs, next, a[t..]).cursor, b).out;
        assert a[..t] + Seam(cs[at.idx + 1]) + (x + y) == a[..t] + Seam(cs[at.idx + 1]) + x + y;
      } else {
        assert a[..t] + [] == a[..t];
      }
    }
  }

  lemma RunInside(cs: seq<Idat>, at: Cursor, a: seq<Byte>, b: seq<Byte>)
    requires at.idx < |cs| && |a| <= at.toRead
    ensures var second := Run(cs, at.(toRead := at.toRead - |a|), b);
      Run(cs, at, a + b) == Cut(a + second.out, second.cursor)
  {
    hide Seam;
    var t := at.toRead - |a|;
    if |b| > t {
      assert (a + b)[..at.toRead] == a + b[..t] && (a + b)[at.toRead..] == b[t..];
      if at.idx + 1 < |cs| {
        var x := Run(cs, Cursor(at.idx + 1, cs[at.idx + 1].len), b[t..]).out;
        assert a + b[..t] + Seam(cs[at.idx + 1]) + x == a + (b[..t] + Seam(cs[at.idx + 1]) + x);
      }
    }
  }

  lemma RunStops(cs: seq<Idat>, at: Cursor, data: seq<Byte>)
    ensures at.idx >= |cs| ==> Run(cs, at, data) == Cut([], Cursor(|cs|, 0))
    ensures at.idx < |cs| && |data| <= at.toRead ==> Run(cs, at, data) == Cut(data, at.(toRead := at.toRead - |data|))
  {
  }

  lemma RunOn(cs: seq<Idat>, at: Cursor, data: seq<Byte>, out: seq<Byte>)
    requires at.idx < |cs| && |data| > at.toRead
    ensures var r, done := Run(cs, at, data), out + data[..at.toRead];
      if at.idx + 1 >= |cs| then out + r.out == done && r.cursor == Cursor(|cs|, 0)
      else
        var c := cs[at.idx + 1];
        var rest := Run(cs, Cursor(at.idx + 1, c.len), data[at.toRead..]);
        out + r.out == done + Seam(c) + rest.out && r.cursor == rest.cursor
  {
    hide Seam;
  }

  lemma SeamParts(out: seq<Byte>, c: Idat)
    ensures out + WordBytes(c.crc) + WordBytes(c.len) + IDAT == out + Seam(c)
  {
    hide WordBytes;
  }

  class MultiPngStream {
    const cs: seq<Idat>
    var out: seq<Byte>
    var idx: nat
    var toRead: nat
    /** All that was written. */
    ghost var data: seq<Byte>

    ghost predicate Valid()
      reads this
    {
      && cs != []
      && var r := Run(cs, Cursor(0, cs[0].len), data);
        out == r.out && r.cursor == if idx < |cs| then Cursor(idx, toRead) else Cursor(|cs|, 0)
    }

    constructor (cs: seq<Idat>)
      requires cs != []
      ensures Valid() && this.cs == cs && data == []
    {
      this.cs, out, idx, toRead, data := cs, [], 0, cs[0].len, [];
    }

    method Write(buffer: seq<Byte>) returns (written: nat)
      requires Valid()
      modifies this
      ensures Valid() && data == old(data) + buffer
    {
      hide Seam; hide Run; hide WordBytes;
      ghost var start, before := if idx < |cs| then Cursor(idx, toRead) else Cursor(|cs|, 0), out;
      RunAppend(cs, Cursor(0, cs[0].len), data, buffer);
      data := data + buffer;
      written := 0;
      RunStops(cs, start, buffer);
      if idx >= |cs| {
        assert before + [] == before;
        return;
      }
      ghost var whole := Run(cs, Cursor(0, cs[0].len), data);
      assert whole == Cut(before + Run(cs, start, buffer).out, Run(cs, start, buffer).cursor);
      var rest := buffer;
      assert before + Run(cs, start, buffer).out == out + Run(cs, Cursor(idx, toRead), rest).out;
      while |rest| > toRead
        invariant idx < |cs| && data == old(data) + buffer
        invariant before + Run(cs, start, buffer).out == out + Run(cs, Cursor(idx, toRead), rest).out
        invariant Run(cs, start, buffer).cursor == Run(cs, Cursor(idx, toRead), rest).cursor
        decreases |cs| - idx
      {
        RunOn(cs, Cursor(idx, toRead), rest, out);
        out := out + rest[..toRead];
        written := written + toRead;
        rest := rest[toRead..];
        idx := idx + 1;
        if idx >= |cs| {
          return;
        }
        SeamParts(out, cs[idx]);
        out := out + WordBytes(cs[idx].crc);
        toRead := cs[idx].len;
        out := out + WordBytes(toRead);
        out := out + IDAT;
      }
      RunStops(cs, Cursor(idx, toRead), rest);
      out := out + rest;
      written := written + |rest|;
      toRead := toRead - |rest|;
    }
  }

  // ---- Joining

  /** Chunk i's data is in the file at off, and each following chunk behind its seam. */
  predicate Linked(file: seq<Byte>, off: nat, cs: seq<Idat>, i: nat)
    requires i < |cs|
    decreases |cs| - i
  {
    && off + cs[i].len <= |file|
    && (i + 1 < |cs| ==>
          && off + cs[i].len + 12 <= |file|
          && file[off + cs[i].len..off + cs[i].len + 12] == Seam(cs[i + 1])
          && Linked(file, off + cs[i].len + 12, cs, i + 1))
  }

  /** The data of all chunks from i on: what the encoder copies to the file it tries to recompress. */
  function Joined(file: seq<Byte>, off: nat, cs: seq<Idat>, i: nat): (s: seq<Byte>)
    requires i < |cs| && Linked(file, off, cs, i)
    decreases |cs| - i
  {
    file[off..off + cs[i].len] + if i + 1 < |cs| then Joined(file, off + cs[i].len + 12, cs, i + 1) else []
  }

  /** How many seams lie within the first n bytes from chunk i on. */
  function Seams(cs: seq<Idat>, i: nat, n: nat): (k: nat)
    requires i < |cs|
    ensures i + k < |cs|
    decreases |cs| - i
  {
    if i + 1 >= |cs| || n <= cs[i].len then 0 else 1 + Seams(cs, i + 1, n - cs[i].len)
  }

  /** Cutting the first n joined bytes gives back the file's bytes: n of data and 12 for each seam. */
  lemma {:induction false} CutUndoesJoin(file: seq<Byte>, off: nat, cs: seq<Idat>, i: nat, n: nat)
    requires i < |cs| && Linked(file, off, cs, i) && n <= |Joined(file, off, cs, i)|
    ensures off + n + 12 * Seams(cs, i, n) <= |file|
    ensures Run(cs, Cursor(i, cs[i].len), Joined(file, off, cs, i)[..n]).out
         == file[off..off + n + 12 * Seams(cs, i, n)]
    decreases |cs| - i
  {
    hide Seam; hide Run; hide Joined; hide Linked;
    var len := cs[i].len;
    JoinedFrom(file, off, cs, i);
    if i + 1 < |cs| && n > len {
      var off' := off + len + 12;
      var head, rest := file[off..off + len], Joined(file, off', cs, i + 1);
      CutUndoesJoin(file, off', cs, i + 1, n - len);
      JoinedParts(head, rest, n);
      RunSplit(cs, i, head, rest[..n - len]);
      FileParts(file, off, off + len, off', off + n + 12 * Seams(cs, i, n));
    } else {
      JoinedStart(file, off, cs, i, n);
      RunStops(cs, Cursor(i, len), Joined(file, off, cs, i)[..n]);
    }
  }

  /** The first chunk, and the rest behind its seam. */
  lemma JoinedFrom(file: seq<Byte>, off: nat, cs: seq<Idat>, i: nat)
    requires i < |cs| && Linked(file, off, cs, i)
    ensures off + cs[i].len <= |file|
    ensures i + 1 < |cs| ==>
      && off + cs[i].len + 12 <= |file| && Linked(file, off + cs[i].len + 12, cs, i + 1)
      && file[off + cs[i].len..off + cs[i].len + 12] == Seam(cs[i + 1])
      && Joined(file, off, cs, i) == file[off..off + cs[i].len] + Joined(file, off + cs[i].len + 12, cs, i + 1)
    ensures i + 1 == |cs| ==> Joined(file, off, cs, i) == file[off..off + cs[i].len]
  {
    hide Seam;
  }

  lemma JoinedStart(file: seq<Byte>, off: nat, cs: seq<Idat>, i: nat, n: nat)
    requires i < |cs| && Linked(file, off, cs, i)
    requires n <= |Joined(file, off, cs, i)| && (n <= cs[i].len || i + 1 == |cs|)
    ensures n <= cs[i].len && off + n <= |file| && Joined(file, off, cs, i)[..n] == file[off..off + n]
  {
    hide Joined; hide Linked; hide Seam;
    JoinedFrom(file, off, cs, i);
    var j := Joined(file, off, cs, i);
    assert j[..n] == j[..cs[i].len][..n];
    assert j[..cs[i].len] == file[off..off + cs[i].len];
  }

  lemma RunSplit(cs: seq<Idat>, i: nat, a: seq<Byte>, b: seq<Byte>)
    requires i + 1 < |cs| && |a| == cs[i].len && b != []
    ensures Run(cs, Cursor(i, cs[i].len), a + b).out
         == a + Seam(cs[i + 1]) + Run(cs, Cursor(i + 1, cs[i + 1].len), b).out
  {
    hide Seam;
    assert (a + b)[..|a|] == a && (a + b)[|a|..] == b;
  }

  lemma JoinedParts(a: seq<Byte>, b: seq<Byte>, n: nat)
    requires |a| < n <= |a| + |b|
    ensures (a + b)[..n] == a + b[..n - |a|]
  {
  }

  lemma FileParts(file: seq<Byte>, i: nat, j: nat, k: nat, l: nat)
    requires i <= j <= k <= l <= |file|
    ensures file[i..l] == file[i..j] + file[j..k] + file[k..l]
  {
  }

  /** The chunks that hold the first n bytes are enough to cut them, and more make no difference. */
  lemma {:induction false} EnoughChunks(cs: seq<Idat>, i: nat, n: nat, few: seq<Idat>, data: seq<Byte>)
    requires i < |cs| && Holds(cs, i, n) && |data| == n
    requires i + Seams(cs, i, n) < |few| <= |cs| && few == cs[..|few|]
    ensures Run(few, Cursor(i, cs[i].len), data).out == Run(cs, Cursor(i, cs[i].len), data).out
    decreases |cs| - i
  {
    hide Seam;
    if i + 1 < |cs| && n > cs[i].len {
      assert few[i + 1] == cs[i + 1];
      EnoughChunks(cs, i + 1, n - cs[i].len, few, data[cs[i].len..]);
    }
  }

  /** The chunks from i on have room for n bytes. */
  predicate Holds(cs: seq<Idat>, i: nat, n: nat)
    requires i < |cs|
    decreases |cs| - i
  {
    n <= cs[i].len || (i + 1 < |cs| && Holds(cs, i + 1, n - cs[i].len))
  }

  lemma {:induction false} JoinedHolds(file: seq<Byte>, off: nat, cs: seq<Idat>, i: nat, n: nat)
    requires i < |cs| && Linked(file, off, cs, i) && n <= |Joined(file, off, cs, i)|
    ensures Holds(cs, i, n)
    decreases |cs| - i
  {
    hide Seam;
    if n > cs[i].len && i + 1 < |cs| {
      JoinedHolds(file, off + cs[i].len + 12, cs, i + 1, n - cs[i].len);
    }
  }

  // ---- Counting the pairs to store

  /** The `int` that an unsigned sum is stored in. */
  function Int32(n: nat): (r: int)
    ensures r <= n
  {
    var m := n % 0x1_0000_0000;
    if m < 0x8000_0000 then m else m - 0x1_0000_0000
  }

  /** The loop that finds out how many pairs are needed for `size` bytes; the first i + 1 chunks hold `sum`. */
  function Counted(cs: seq<Idat>, i: nat, sum: nat, size: nat): (k: nat)
    requires i < |cs|
    ensures i + k < |cs|
    decreases |cs| - i
  {
    if i + 1 >= |cs| || size <= Int32(sum) then 0 else 1 + Counted(cs, i + 1, sum + cs[i + 1].len, size)
  }

  /** The bytes that chunks i..i+k hold, counting `sum` up to chunk i. */
  function Total(cs: seq<Idat>, i: nat, sum: nat, k: nat): (t: nat)
    requires i + k < |cs|
    decreases k
  {
    if k == 0 then sum else Total(cs, i + 1, sum + cs[i + 1].len, k - 1)
  }

  /** The count is right exactly if the chunks needed are all there are, or their size survives as an `int`. */
  lemma {:induction false} CountIsRightIff(cs: seq<Idat>, i: nat, sum: nat, size: nat, n: nat)
    requires i < |cs| && sum >= cs[i].len && n == size - (sum - cs[i].len)
    ensures var k := Seams(cs, i, n);
      Counted(cs, i, sum, size) == k <==> (i + k + 1 == |cs| || size <= Int32(Total(cs, i, sum, k)))
    decreases |cs| - i
  {
    hide Int32;
    var k := Seams(cs, i, n);
    if k > 0 {
      CountIsRightIff(cs, i + 1, sum + cs[i + 1].len, size, n - cs[i].len);
    }
  }

  /** A first chunk of 2^31 bytes, as `int`, looks too small for any stream, and a pair too many is counted. */
  lemma CountGoesWrong()
    ensures var cs := [Idat(0, 0x8000_0000), Idat(0, 1)];
      Seams(cs, 0, 100) == 0 && Counted(cs, 0, cs[0].len, 100) == 1
  {
    var cs := [Idat(0, 0x8000_0000), Idat(0, 1)];
    assert Counted(cs, 1, 0x8000_0001, 100) == 0;
  }

  /** "simulate IDAT write to get IDAT pairs count" */
  method CountPairs(cs: seq<Idat>, size: nat) returns (pairs: nat)
    requires |cs| > 1
    ensures pairs == Counted(cs, 0, cs[0].len, size)
  {
    hide Int32;
    var i := 1;
    ghost var sum: nat := cs[0].len;
    var pos := Int32(cs[0].len);
    pairs := 0;
    if pos < size {
      while true
        invariant 1 <= i < |cs| && pos == Int32(sum) < size && pairs == i - 1
        invariant Counted(cs, 0, cs[0].len, size) == pairs + Counted(cs, i - 1, sum, size)
        decreases |cs| - i
      {
        pairs := pairs + 1;
        AddWraps(sum, cs[i].len);
        pos := IntSum(pos, cs[i].len);
        sum := sum + cs[i].len;
        if pos >= size {
          break;
        }
        i := i + 1;
        if i >= |cs| {
          break;
        }
      }
    }
  }

  /** `idat_pos += length` */
  function IntSum(pos: int, len: U32): (r: int) {
    var m := (pos + len) % 0x1_0000_0000;
    if m < 0x8000_0000 then m else m - 0x1_0000_0000
  }

  lemma AddWraps(sum: nat, len: U32)
    ensures IntSum(Int32(sum), len) == Int32(sum + len)
  {
  }

  // ---- Finding the chunks

  /** Where the data of chunk i starts. */
  function At(cs: seq<Idat>, off: nat, i: nat): (a: nat)
    requires i <= |cs|
    ensures a >= off && (i > 0 ==> a >= off + 12)
  {
    if i == 0 then off else At(cs, off, i - 1) + cs[i - 1].len + 12
  }

  predicate Seamed(file: seq<Byte>, off: nat, cs: seq<Idat>) {
    forall i :: 1 <= i < |cs| ==> At(cs, off, i) <= |file| && file[At(cs, off, i) - 12..At(cs, off, i)] == Seam(cs[i])
  }

  lemma {:induction false} SeamedIsLinked(file: seq<Byte>, off: nat, cs: seq<Idat>, i: nat)
    requires i < |cs| && Seamed(file, off, cs) && At(cs, off, |cs|) <= |file|
    ensures Linked(file, At(cs, off, i), cs, i)
    decreases |cs| - i
  {
    hide Seam; hide At;
    AtNext(cs, off, i);
    if i + 1 < |cs| {
      SeamedIsLinked(file, off, cs, i + 1);
      assert file[At(cs, off, i + 1) - 12..At(cs, off, i + 1)] == Seam(cs[i + 1]);
    }
  }

  lemma AtNext(cs: seq<Idat>, off: nat, i: nat)
    requires i < |cs|
    ensures At(cs, off, i + 1) == At(cs, off, i) + cs[i].len + 12
  {
  }

  lemma AtStart(cs: seq<Idat>, off: nat)
    ensures At(cs, off, 0) == off
  {
  }

  lemma {:induction false} AtOfPrefix(cs: seq<Idat>, off: nat, c: Idat, i: nat)
    requires i <= |cs|
    ensures At(cs + [c], off, i) == At(cs, off, i)
    decreases i
  {
    if i > 0 {
      AtOfPrefix(cs, off, c, i - 1);
    }
  }

  lemma SeamedStep(file: seq<Byte>, off: nat, cs: seq<Idat>, c: Idat)
    requires cs != [] && Seamed(file, off, cs) && At(cs, off, |cs|) <= |file|
    requires file[At(cs, off, |cs|) - 12..At(cs, off, |cs|)] == Seam(c)
    ensures Seamed(file, off, cs + [c])
  {
    hide Seam; hide At;
    var all := cs + [c];
    forall i | 1 <= i < |all|
      ensures At(all, off, i) <= |file| && file[At(all, off, i) - 12..At(all, off, i)] == Seam(all[i])
    {
      AtOfPrefix(cs, off, c, i);
    }
  }

  lemma SeamOfBytes(s: seq<Byte>)
    requires |s| == 12 && s[8..] == IDAT
    ensures Seam(Idat(Word(s[..4]), Word(s[4..8]))) == s
  {
    hide WordBytes; hide Word;
    WordReadsBack(s[..4]);
    WordReadsBack(s[4..8]);
    assert s == s[..4] + s[4..8] + s[8..];
  }

  /** After the last of these chunks no further IDAT follows. */
  ghost predicate IsLast(file: seq<Byte>, off: nat, cs: seq<Idat>)
    requires cs != []
  {
    var end := At(cs, off, |cs|);
    end <= |file| && file[end - 4..end] != IDAT
  }

  /** The chunks that follow each other from pos on leave the file or are too many. */
  ghost predicate Overflows(file: seq<Byte>, pos: nat, cs: seq<Idat>)
    requires 4 <= pos <= |file|
  {
    && cs != [] && cs[0].crc == 0 && cs[0].len + 2 == Word(file[pos - 4..pos]) && Seamed(file, pos + 6, cs)
    && (At(cs, pos + 6, |cs|) > |file| || |cs| > 65535)
  }

  /** No image can be made of the IDAT at pos. */
  ghost predicate Unusable(file: seq<Byte>, pos: nat, zlibHeaderCorrect: bool)
    requires pos + 4 <= |file|
  {
    || pos < 4 || pos + 6 > |file| || !zlibHeaderCorrect || Word(file[pos - 4..pos]) <= 2
    || exists cs :: Overflows(file, pos, cs)
  }

  /** The chunks of the image whose first IDAT is at pos, all that follow each other; none if it is no usable image. */
  method FindIdats(file: seq<Byte>, pos: nat, zlibHeaderCorrect: bool) returns (cs: seq<Idat>)
    requires pos + 4 <= |file| && file[pos..pos + 4] == IDAT
    ensures cs != [] ==>
      && |cs| <= 65535 && cs[0].crc == 0 && pos >= 4 && cs[0].len + 2 == Word(file[pos - 4..pos])
      && Linked(file, pos + 6, cs, 0) && Seamed(file, pos + 6, cs) && IsLast(file, pos + 6, cs)
    ensures cs == [] ==> Unusable(file, pos, zlibHeaderCorrect)
  {
    hide Seam; hide Word; hide Linked; hide At;
    cs := [];
    if pos < 4 || pos + 6 > |file| {
      return;
    }
    var first := Word(file[pos - 4..pos]);
    if first <= 2 || !zlibHeaderCorrect {
      return;
    }
    cs := [Idat(0, first - 2)];
    var tell := pos + 6;
    ghost var off := tell;
    AtStart(cs, off);
    while true
      invariant 1 <= |cs| <= 65535 && cs[0] == Idat(0, first - 2)
      invariant Seamed(file, off, cs) && tell == At(cs, off, |cs| - 1) <= |file|
      decreases |file| - tell
    {
      AtNext(cs, off, |cs| - 1);
      tell := tell + cs[|cs| - 1].len;
      if tell + 12 > |file| {
        assert Overflows(file, pos, cs);
        return [];
      }
      var in_ := file[tell..tell + 12];
      tell := tell + 12;
      assert tell == At(cs, off, |cs|);
      if in_[8..] != IDAT {
        SeamedIsLinked(file, off, cs, 0);
        AtStart(cs, off);
        return;
      }
      var c := Idat(Word(in_[..4]), Word(in_[4..8]));
      SeamOfBytes(in_);
      SeamedStep(file, off, cs, c);
      AtOfPrefix(cs, off, c, |cs|);
      cs := cs + [c];
      if |cs| > 65535 {
        assert Overflows(file, pos, cs);
        return [];
      }
    }
  }

  // ---- The round trip

  /** The pair count comes out right. */
  predicate Countable(cs: seq<Idat>, size: nat)
    requires cs != []
  {
    var k := Seams(cs, 0, size);
    k + 1 == |cs| || size <= Int32(Total(cs, 0, cs[0].len, k))
  }

  /** The count is never too low. */
  lemma {:induction false} CountsEnough(cs: seq<Idat>, i: nat, sum: nat, size: nat, n: nat)
    requires i < |cs| && sum >= cs[i].len && n == size - (sum - cs[i].len)
    ensures Counted(cs, i, sum, size) >= Seams(cs, i, n)
    decreases |cs| - i
  {
    hide Int32;
    if Seams(cs, i, n) > 0 {
      CountsEnough(cs, i + 1, sum + cs[i + 1].len, size, n - cs[i].len);
    }
  }

  /**
   However the re-encoder cuts the first `size` joined bytes into writes, the decoder gives
   back the image's bytes; they are those that the encoder has advanced over exactly if the
   pair count came out right.
   */
  method SplitUndoesJoin(file: seq<Byte>, pos: nat, cs: seq<Idat>, size: nat, writes: seq<seq<Byte>>)
    returns (out: seq<Byte>, advance: nat)
    requires |cs| > 1 && pos + 6 <= |file| && file[pos..pos + 4] == IDAT && Linked(file, pos + 6, cs, 0)
    requires size <= |Joined(file, pos + 6, cs, 0)| && Concat(writes) == Joined(file, pos + 6, cs, 0)[..size]
    ensures var end := pos + 6 + size + 12 * Seams(cs, 0, size); end <= |file| && out == file[pos..end]
    ensures (pos + advance <= |file| && out == file[pos..pos + advance]) <==> Countable(cs, size)
  {
    hide Seam; hide Run; hide Linked; hide Joined; hide Seams; hide Counted; hide Total; hide Int32; hide Holds;
    var pairs := CountPairs(cs, size);
    CountIsRightIff(cs, 0, cs[0].len, size, size);
    CountsEnough(cs, 0, cs[0].len, size, size);
    advance := 6 + size + 12 * pairs;
    var stream := new MultiPngStream(cs[..pairs + 1]);
    var n := 0;
    while n < |writes|
      invariant 0 <= n <= |writes| && fresh(stream) && stream.Valid() && stream.cs == cs[..pairs + 1]
      invariant stream.data == Concat(writes[..n])
    {
      assert writes[..n + 1][..n] == writes[..n];
      var _ := stream.Write(writes[n]);
      n := n + 1;
    }
    assert writes[..n] == writes;
    JoinedHolds(file, pos + 6, cs, 0, size);
    EnoughChunks(cs, 0, size, cs[..pairs + 1], stream.data);
    CutUndoesJoin(file, pos + 6, cs, 0, size);
    out := IDAT + file[pos + 4..pos + 6] + stream.out;
    FileParts(file, pos, pos + 4, pos + 6, pos + 6 + size + 12 * Seams(cs, 0, size));
    assert |out| == 6 + size + 12 * Seams(cs, 0, size);
  }

  // ---- What is stored about the chunks

  function PairBytes(cs: seq<Idat>): (s: seq<Byte>) {
    if cs == [] then [] else WordBytes(cs[0].crc) + Vlint(cs[0].len) + PairBytes(cs[1..])
  }

  /** The pair count, the length of the first chunk with its zlib header, then each further pair. */
  function Stored(cs: seq<Idat>): (s: seq<Byte>)
    requires cs != []
  {
    Vlint(|cs| - 1) + Vlint(cs[0].len + 2) + PairBytes(cs[1..])
  }

  /** Chunks read, and how many bytes they took. */
  datatype Chunks = Chunks(list: seq<Idat>, size: nat)

  function ReadPairs(s: seq<Byte>, count: nat): (r: Option<Chunks>)
    ensures r.Some? ==> r.value.size <= |s|
    decreases count
  {
    if count == 0 then Some(Chunks([], 0))
    else if |s| < 4 then None
    else
      match Unvlint(s[4..])
      case None => None
      case Some(n) =>
        match ReadPairs(s[4 + n.size..], count - 1)
        case None => None
        case Some(more) =>
          Some(Chunks([Idat(Word(s[..4]), n.value % 0x1_0000_0000)] + more.list, 4 + n.size + more.size))
  }

  function ReadStored(s: seq<Byte>): (r: Option<Chunks>)
    ensures r.Some? ==> r.value.size <= |s| && r.value.list != []
  {
    match Unvlint(s)
    case None => None
    case Some(k) =>
      match Unvlint(s[k.size..])
      case None => None
      case Some(first) =>
        match ReadPairs(s[k.size + first.size..], k.value)
        case None => None
        case Some(more) =>
          Some(Chunks([Idat(0, (first.value - 2) % 0x1_0000_0000)] + more.list, k.size + first.size + more.size))
  }

  lemma {:induction false} PairsReadBack(cs: seq<Idat>, rest: seq<Byte>)
    ensures ReadPairs(PairBytes(cs) + rest, |cs|) == Some(Chunks(cs, |PairBytes(cs)|))
    decreases |cs|
  {
    hide ReadPairs; hide PairBytes; hide WordBytes; hide Vlint;
    if cs == [] {
      NoPairs(rest);
    } else {
      var more := PairBytes(cs[1..]) + rest;
      FirstPair(cs);
      PairsReadBack(cs[1..], rest);
      PairReadsBack(cs[0], more, |cs| - 1);
      assert PairBytes(cs) + rest == WordBytes(cs[0].crc) + Vlint(cs[0].len) + more;
      assert cs == [cs[0]] + cs[1..];
    }
  }

  lemma NoPairs(rest: seq<Byte>)
    ensures PairBytes([]) == [] && ReadPairs([] + rest, 0) == Some(Chunks([], 0))
  {
  }

  lemma FirstPair(cs: seq<Idat>)
    requires cs != []
    ensures PairBytes(cs) == WordBytes(cs[0].crc) + Vlint(cs[0].len) + PairBytes(cs[1..])
  {
  }

  lemma PairReadsBack(c: Idat, more: seq<Byte>, count: nat)
    requires ReadPairs(more, count).Some?
    ensures var rest, v := ReadPairs(more, count).value, Vlint(c.len);
      ReadPairs(WordBytes(c.crc) + v + more, count + 1) == Some(Chunks([c] + rest.list, 4 + |v| + rest.size))
  {
    hide WordBytes; hide Word; hide Vlint; hide Unvlint;
    var w, v := WordBytes(c.crc), Vlint(c.len);
    var s := w + v + more;
    assert s[..4] == w && s[4..] == v + more && s[4 + |v|..] == more;
    VlintReadsBack(c.len, more);
  }

  lemma StoredReadsBack(cs: seq<Idat>, rest: seq<Byte>)
    requires cs != [] && cs[0].crc == 0
    ensures ReadStored(Stored(cs) + rest) == Some(Chunks(cs, |Stored(cs)|))
  {
    hide ReadPairs; hide PairBytes; hide Vlint; hide Unvlint;
    var k, first, more := Vlint(|cs| - 1), Vlint(cs[0].len + 2), PairBytes(cs[1..]) + rest;
    var s := Stored(cs) + rest;
    assert s == k + (first + more);
    assert s[|k|..] == first + more && s[|k| + |first|..] == more;
    VlintReadsBack(|cs| - 1, first + more);
    VlintReadsBack(cs[0].len + 2, more);
    PairsReadBack(cs[1..], rest);
    assert cs == [cs[0]] + cs[1..];
  }
}
