/**
 Segments of a block without a model: `Encoder::compress` collects up to 2^16 bytes
 and writes them as a chunk behind a 4-byte length; a zero length ends the segment.
 */
module StoredSegments {
  import opened Bytes
  import opened ModeledSegments

  const CHUNK := 0x1_0000

  type Chunk = s: seq<Byte> | |s| <= CHUNK witness []

  /** What flushing the buffer writes. */
  function Flush(pending: Chunk): (out: seq<Byte>) {
    if pending == [] then [] else WordBytes(|pending|) + pending
  }

  /** `compress(c)`: what it writes, then what it leaves pending. */
  function PutStored(pending: Chunk, c: Byte): (out: seq<Byte>) {
    if |pending| == CHUNK then Flush(pending) else []
  }

  function Pending(pending: Chunk, c: Byte): (p: Chunk)
    ensures p != []
  {
    if |pending| == CHUNK then [c] else pending + [c]
  }

  /** All bytes of a segment after `pending`, then the final flush. */
  function StoreSegment(pending: Chunk, data: seq<Byte>): (out: seq<Byte>)
    decreases |data|
  {
    if data == [] then Flush(pending)
    else PutStored(pending, data[0]) + StoreSegment(Pending(pending, data[0]), data[1..])
  }

  /** `Decoder::decompress` on stored data; `curr` counts the bytes left in the chunk. */
  function Unstore(curr: U32, rest: seq<Byte>): (r: (int, U32, seq<Byte>)) {
    var (n, rest1) := if curr == 0 then Load((0, rest)) else (curr, rest);
    if curr == 0 && n == 0 then (-1, 0, rest1)
    else if rest1 == [] then (-1, n - 1, [])
    else (rest1[0], n - 1, rest1[1..])
  }

  ghost predicate Unstores(curr: U32, rest: seq<Byte>, data: seq<Byte>, tail: seq<Byte>)
    decreases |data|
  {
    var (c, n, rest1) := Unstore(curr, rest);
    if data == [] then c == -1 && n == 0 && rest1 == tail
    else c == data[0] && Unstores(n, rest1, data[1..], tail)
  }

  /** Inside a chunk of `n` bytes: the bytes come out one by one. */
  lemma {:induction false} ChunkUnstores(part: seq<Byte>, rest: seq<Byte>, data: seq<Byte>, tail: seq<Byte>)
    requires |part| <= CHUNK
    requires Unstores(0, rest, data, tail)
    ensures Unstores(|part|, part + rest, part + data, tail)
    decreases |part|
  {
    if part == [] {
      assert part + rest == rest && part + data == data;
    } else {
      ChunkUnstores(part[1..], rest, data, tail);
      assert (part + rest)[1..] == part[1..] + rest && (part + data)[1..] == part[1..] + data;
    }
  }

  lemma FlushUnstores(pending: Chunk, rest: seq<Byte>, data: seq<Byte>, tail: seq<Byte>)
    requires Unstores(0, rest, data, tail)
    ensures Unstores(0, Flush(pending) + rest, pending + data, tail)
  {
    hide Load; hide Word; hide WordBytes;
    if pending == [] {
      assert Flush(pending) + rest == rest && pending + data == data;
    } else {
      ChunkUnstores(pending, rest, data, tail);
      var all := Flush(pending) + rest;
      LoadWord(all);
      assert all == WordBytes(|pending|) + (pending + rest);
      SameWord(WordBytes(|pending|), pending + rest);
      assert all[4..] == pending + rest;
      assert Unstore(0, all) == Unstore(|pending|, pending + rest);
    }
  }

  /** The empty chunk that `endSegment` writes. */
  lemma EndUnstores(tail: seq<Byte>)
    ensures Unstores(0, ZEROS + tail, [], tail)
  {
    hide Load; hide Word;
    LoadWord(ZEROS + tail);
    SameWord(ZEROS, tail);
    ZeroWord();
    assert (ZEROS + tail)[4..] == tail;
  }

  lemma {:induction false} StoredFollows(pending: Chunk, data: seq<Byte>, tail: seq<Byte>)
    ensures Unstores(0, StoreSegment(pending, data) + ZEROS + tail, pending + data, tail)
    decreases |data|
  {
    hide Unstores; hide Flush;
    if data == [] {
      EndUnstores(tail);
      FlushUnstores(pending, ZEROS + tail, [], tail);
      assert StoreSegment(pending, data) + ZEROS + tail == Flush(pending) + (ZEROS + tail);
      assert pending + data == pending + [];
    } else {
      var p := Pending(pending, data[0]);
      StoredFollows(p, data[1..], tail);
      if |pending| == CHUNK {
        FlushUnstores(pending, StoreSegment(p, data[1..]) + ZEROS + tail, p + data[1..], tail);
        assert StoreSegment(pending, data) + ZEROS + tail
          == Flush(pending) + (StoreSegment(p, data[1..]) + ZEROS + tail);
        assert p + data[1..] == data;
      } else {
        assert p + data[1..] == pending + data;
        assert StoreSegment(pending, data) == StoreSegment(p, data[1..]);
      }
    }
  }

  /** Stored round trip: the data, then -1, with the reader right behind the four zeros. */
  lemma StoredRoundTrip(data: seq<Byte>, tail: seq<Byte>)
    ensures Unstores(0, StoreSegment([], data) + ZEROS + tail, data, tail)
  {
    StoredFollows([], data, tail);
    assert [] + data == data;
  }

  // ---- skip

  /** `for (i<4 && (c=get())>=0) curr=curr<<8|c;`, with the last value of c. */
  function Length(c: int, curr: U32, rest: seq<Byte>, k: nat): (r: (int, U32, seq<Byte>))
    ensures |r.2| <= |rest|
    decreases k
  {
    if k == 0 then (c, curr, rest)
    else if rest == [] then (-1, curr, [])
    else Length(rest[0], Slide(curr, rest[0]), rest[1..], k - 1)
  }

  function SkipChunks(c: int, curr: U32, rest: seq<Byte>): (r: Outcome<(int, U32, seq<Byte>)>)
    decreases |rest|
  {
    if curr == 0 then
      if c < 0 then Ok((c, 0, rest))
      else if rest == [] then Ok((-1 as int, 0, []))
      else Ok((rest[0] as int, 0, rest[1..]))
    else if |rest| < curr then Fail(SkippedToEof)
    else
      var (c', n, rest1) := Length(c, 0, rest[curr..], 4);
      SkipChunks(c', n, rest1)
  }

  /** `Decoder::skip` on stored data. */
  function SkipStored(curr: U32, rest: seq<Byte>): (r: Outcome<(int, U32, seq<Byte>)>) {
    if curr == 0 then var (c, n, rest1) := Length(-1, 0, rest, 4); SkipChunks(c, n, rest1)
    else SkipChunks(-1, curr, rest)
  }

  lemma LengthStep(c: int, curr: U32, rest: seq<Byte>, i: nat, k: nat)
    requires curr < 0x100_0000 && i < |rest| && k > 0
    ensures Length(c, curr, rest[i..], k) == Length(rest[i], Append(curr, rest[i]), rest[i + 1..], k - 1)
  {
    hide Slide;
    assert rest[i..][1..] == rest[i + 1..];
    SlideDrops(0, curr, rest[i]);
  }

  lemma LengthLoads(c: int, rest: seq<Byte>)
    requires |rest| >= 4
    ensures Length(c, 0, rest, 4) == (rest[3], Word(rest), rest[4..])
  {
    hide Length;
    assert rest[0..] == rest;
    LengthStep(c, 0, rest, 0, 4);
    LengthStep(rest[0], Append(0, rest[0]), rest, 1, 3);
    LengthStep(rest[1], Append(rest[0], rest[1]), rest, 2, 2);
    LengthStep(rest[2], Append(Append(rest[0], rest[1]), rest[2]), rest, 3, 1);
    LengthNone(rest[3], Word(rest), rest[4..]);
  }

  lemma LengthNone(c: int, curr: U32, rest: seq<Byte>)
    ensures Length(c, curr, rest, 0) == (c, curr, rest)
  {
  }

  /** The byte last read does not matter once a new length is read. */
  lemma LengthForgets(c: int, c': int, rest: seq<Byte>)
    ensures Length(c, 0, rest, 4) == Length(c', 0, rest, 4)
  {
  }

  lemma SkipOne(curr: U32, rest: seq<Byte>)
    requires curr > 0 && rest != []
    ensures SkipStored(curr, rest) == SkipStored(curr - 1, rest[1..])
  {
    hide Length;
    if |rest| >= curr {
      assert rest[curr..] == rest[1..][curr - 1..];
      if curr == 1 {
        assert rest[1..][0..] == rest[1..];
      }
    }
  }

  /** Too few bytes for a length: decoding cannot end properly. */
  lemma ShortLoad(rest: seq<Byte>)
    requires |rest| < 4
    ensures Load((0, rest)).0 != 0 && Load((0, rest)).1 == []
  {
    hide Append;
    var a := LoadByte((0, rest));
    var b := LoadByte(a);
    var c := LoadByte(b);
    var d := LoadByte(c);
    assert |a.1| <= 2 && |b.1| <= 1 && c.1 == [];
  }

  /** Skip agrees with decoding, from every state from which stored decoding reaches the end. */
  lemma {:induction false} SkipStoredAgrees(curr: U32, rest: seq<Byte>, data: seq<Byte>, marker: Byte, tail: seq<Byte>)
    requires Unstores(curr, rest, data, [marker] + tail)
    ensures SkipStored(curr, rest) == Ok((marker, 0, tail))
    decreases |data|
  {
    hide Length; hide Word; hide Load;
    if curr == 0 {
      if |rest| < 4 {
        ShortLoad(rest);
        assert false;
      }
      LoadWord(rest);
      LengthLoads(-1, rest);
      if Word(rest) == 0 {
        WordZeroLast(rest);
        assert ([marker] + tail)[1..] == tail;
      } else {
        LengthForgets(-1, rest[3], rest);
        SkipAnyC(-1, rest[3], Word(rest), rest[4..]);
        assert Unstore(curr, rest) == Unstore(Word(rest), rest[4..]);
        SkipOne(Word(rest), rest[4..]);
        SkipStoredAgrees(Word(rest) - 1, rest[4..][1..], data[1..], marker, tail);
      }
    } else {
      SkipOne(curr, rest);
      SkipStoredAgrees(curr - 1, rest[1..], data[1..], marker, tail);
    }
  }

  lemma SkipAnyC(c: int, c': int, curr: U32, rest: seq<Byte>)
    requires curr > 0
    ensures SkipChunks(c, curr, rest) == SkipChunks(c', curr, rest)
  {
    hide Length;
    if |rest| >= curr {
      LengthForgets(c, c', rest[curr..]);
    }
  }

  lemma WordZeroLast(s: seq<Byte>)
    requires |s| >= 4 && Word(s) == 0
    ensures s[3] == 0
  {
  }
}
