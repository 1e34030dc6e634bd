/**
 The LZ77 levels end to end: filter, `LZBuffer` with any genuine matches, the bytes fed one
 at a time to the post-processor, and its output.
 */
module LzRoundTrip {
  import opened Arith
  import opened Bytes
  import opened Wrappers
  import opened Bits
  import opened Lz77
  import opened BitPackedLz
  import opened ByteAlignedLz
  import opened LzEncoder
  import E8E9
  import Lazy2

  /** `read`: drain and refill until nothing comes, or a round does not fit. */
  method Drain(lz: LZBuffer, find: (nat, nat) -> Pick) returns (ok: bool)
    requires lz.Finished() || (lz.i < |lz.input| && lz.Writing() && lz.Done(lz.i))
    requires forall j: nat, l: nat :: j < |lz.input| ==> Genuine(lz.input, j, find(j, l), lz.minMatch, lz.lookahead)
    requires lz.wpos == 0
    modifies lz
    ensures LeavesRoom(lz.level, lz.minMatch, lz.rb, lz.lookahead) ==> ok
    ensures ok ==> lz.Finished()
    ensures ok ==> Advances(lz.input, find) && old(lz.i) <= |lz.input|
    ensures ok ==> lz.items == old(lz.items) + Dictated(lz.input, find, old(lz.i), 0)
    ensures !ok ==> lz.Blocked(find)
  {
    hide LZBuffer.Coded; hide LZBuffer.Done; hide Genuine; hide Pow2; hide Codes; hide LeavesRoom;
    hide LZBuffer.Blocked; hide Dictated; hide Advances; hide LZBuffer.Writing; hide LZBuffer.Finished;
    hide LZBuffer.Proper;
    lz.EndsOnce();
    ok := lz.Fill(find);
    while ok && lz.wpos > 0
      invariant LeavesRoom(lz.level, lz.minMatch, lz.rb, lz.lookahead) ==> ok
      invariant !ok ==> lz.Blocked(find)
      invariant ok ==> lz.Finished() || (lz.i < |lz.input| && lz.Writing() && lz.Done(lz.i) && lz.wpos > 0)
      invariant Advances(lz.input, find) && old(lz.i) <= |lz.input|
      invariant ok ==> lz.i <= |lz.input|
      invariant ok ==>
        lz.items + Dictated(lz.input, find, lz.i, 0) == old(lz.items) + Dictated(lz.input, find, old(lz.i), 0)
      decreases ok, |lz.input| - lz.i, lz.wpos
    {
      Drained(lz);
      ok := lz.Fill(find);
    }
    if ok {
      lz.EndsOnce();
      DictatedEnd(lz.input, find, 0);
    }
  }

  /** The reader has taken all of `buf`. */
  method Drained(lz: LZBuffer)
    requires lz.Finished() || (lz.i < |lz.input| && lz.Writing() && lz.Done(lz.i))
    modifies lz`wpos
    ensures lz.wpos == 0
    ensures lz.Finished() || (lz.i < |lz.input| && lz.Writing() && lz.Done(lz.i))
  {
    hide LZBuffer.Coded; hide LZBuffer.Done; hide Pow2; hide Codes;
    lz.wpos := 0;
  }

  /** `code` is the bit string of the items the picks dictate, padded to whole bytes. */
  ghost predicate PacksPicks(rb: nat, input: seq<Byte>, find: (nat, nat) -> Pick, code: seq<Byte>) {
    && Advances(input, find)
    && var items := Dictated(input, find, 0, 0);
      && (forall k :: 0 <= k < |items| ==> Codable(rb, items[k]))
      && Codes(rb, items) <= Unpack(code) && |Unpack(code)| < |Codes(rb, items)| + 8
  }

  /** `code` is the bytes of the items the picks dictate. */
  ghost predicate WritesPicks(minMatch: nat, input: seq<Byte>, find: (nat, nat) -> Pick, code: seq<Byte>) {
    && Advances(input, find) && 1 <= minMatch <= 64
    && var items := Dictated(input, find, 0, 0);
      (forall k :: 0 <= k < |items| ==> Writable(minMatch, items[k])) && code == AllBytes(minMatch, items)
  }

  lemma FinishedPacks(lz: LZBuffer, find: (nat, nat) -> Pick)
    requires lz.Finished() && Advances(lz.input, find) && lz.items == Dictated(lz.input, find, 0, 0)
    ensures lz.level == 1 ==> PacksPicks(lz.rb, lz.input, find, lz.out)
    ensures lz.level == 2 ==> WritesPicks(lz.minMatch, lz.input, find, lz.out)
  {
    hide Codes; hide Unpack; hide AllBytes; hide Dictated; hide Advances; hide LZBuffer.Done;
  }

  /** Level 1 reads back: the padded bit string means the input. */
  lemma FinishedMeans(lz: LZBuffer)
    requires lz.Finished() && lz.level == 1
    ensures Meaning(lz.rb, Start([]), Unpack(lz.out)) == Some(lz.input)
  {
    hide Meaning; hide Codes; hide Unpack; hide Rebuilds;
    var codes := Codes(lz.rb, lz.items);
    var pad := Unpack(lz.out)[|codes|..];
    assert Unpack(lz.out) == codes + pad;
    assert lz.input[..lz.i] == lz.input;
    CodesMean(lz.rb, lz.items, [], lz.input, pad);
  }

  /**
   Bit-packed LZ77 round trip: whatever genuine matches are picked, with or without the
   E8E9 filter, the lazy2 machine fed byte by byte outputs the data.
   */
  method Level1(data: seq<Byte>, doe8: bool, rb: nat, minMatch: nat, lookahead: nat, size: nat,
                find: (nat, nat) -> Pick)
    returns (ok: bool, code: seq<Byte>, out: seq<Byte>)
    requires minMatch >= 4 && rb <= 8
    requires |data| + Pow2(rb) < Pow2(24 + rb) + 2 && |data| <= size && size > 0
    requires var input := if doe8 then E8E9.Encode(data) else data;
      forall j: nat, l: nat :: j < |input| ==> Genuine(input, j, find(j, l), minMatch, lookahead)
    ensures ok ==> out == data
    ensures ok ==> PacksPicks(rb, if doe8 then E8E9.Encode(data) else data, find, code)
    ensures LeavesRoom(1, minMatch, rb, lookahead) ==> ok
    ensures 8 * lookahead + rb <= 32693 ==> ok
  {
    hide E8E9.Encode; hide E8E9.Decode; hide Genuine; hide Meaning; hide Pow2; hide Unpack; hide LeavesRoom;
    hide Dictated; hide Advances; hide PacksPicks;
    FirstLevelLookahead(minMatch, rb, lookahead);
    var input := Filter(data, doe8);
    var lz := new LZBuffer(input, 1, minMatch, lookahead, rb);
    ok := Drain(lz, find);
    if !ok {
      return false, [], [];
    }
    FinishedMeans(lz);
    assert [] + Dictated(input, find, 0, 0) == Dictated(input, find, 0, 0);
    FinishedPacks(lz, find);
    code := lz.out;
    out := RunLazy2(rb, doe8, size, code, input);
    E8E9.RoundTrip(data);
  }

  /** The post-processor, fed byte by byte. */
  method RunLazy2(rb: nat, doe8: bool, size: nat, code: seq<Byte>, ghost input: seq<Byte>) returns (out: seq<Byte>)
    requires Meaning(rb, Start([]), Unpack(code)) == Some(input) && |input| <= size && size > 0 && rb <= 8
    ensures out == if doe8 then E8E9.Decode(input) else input
  {
    hide E8E9.Decode; hide Meaning; hide Pow2;
    var m := new Lazy2.Machine(rb, doe8, size);
    StartsOn(m, Unpack(code), input);
    var k := 0;
    assert code[0..] == code;
    while k < |code|
      invariant 0 <= k <= |code| && m.Valid() && fresh(m) && fresh(m.m)
      invariant m.On(Unpack(code[k..]), input) && m.base == []
      invariant m.doe8 == doe8
    {
      assert code[k..][1..] == code[k + 1..];
      UnpackFirst(code[k..]);
      m.Feed(code[k], Unpack(code[k + 1..]), input);
      k := k + 1;
    }
    assert code[k..] == [];
    m.Finish(input);
    out := m.out;
  }

  lemma UnpackFirst(s: seq<Byte>)
    requires s != []
    ensures Unpack(s) == Field(s[0], 8) + Unpack(s[1..])
  {
  }

  lemma StartsOn(m: Lazy2.Machine, code: Bits, input: seq<Byte>)
    requires m.Valid() && m.Reset() && m.out == [] && |input| <= m.m.Length
    requires Meaning(m.rb, Start([]), code) == Some(input)
    ensures m.On(code, input)
  {
    hide Meaning;
    assert m.m[..0] == [];
    assert Field(m.bits, m.n) + code == code;
  }

  method Filter(data: seq<Byte>, doe8: bool) returns (input: seq<Byte>)
    ensures input == if doe8 then E8E9.Encode(data) else data
    ensures |input| == |data|
  {
    hide E8E9.Encode;
    if doe8 {
      var buf := new Byte[|data|](i requires 0 <= i < |data| => data[i]);
      assert buf[..] == data;
      E8E9.EncodeInPlace(buf);
      input := buf[..];
    } else {
      input := data;
    }
  }

  /** Level 2 reads back: the bytes mean the input. */
  lemma FinishedBytes(lz: LZBuffer)
    requires lz.Finished() && lz.level == 2
    ensures EatAll(lz.minMatch, Fresh([]), lz.out) == Some(Fresh(lz.input))
  {
    hide EatAll; hide Rebuilds; hide AllBytes;
    assert lz.input[..lz.i] == lz.input;
    BytesMean(lz.minMatch, lz.items, [], lz.input);
  }

  /** Byte-aligned LZ77 round trip, for every minimum match length the format allows. */
  method Level2(data: seq<Byte>, doe8: bool, minMatch: nat, lookahead: nat, size: nat, find: (nat, nat) -> Pick)
    returns (ok: bool, code: seq<Byte>, out: seq<Byte>)
    requires 1 <= minMatch <= 64
    requires |data| <= 0x1_0000_0000 && |data| <= size && size > 0
    requires var input := if doe8 then E8E9.Encode(data) else data;
      forall j: nat, l: nat :: j < |input| ==> Genuine(input, j, find(j, l), minMatch, lookahead)
    ensures ok ==> out == data
    ensures ok ==> WritesPicks(minMatch, if doe8 then E8E9.Encode(data) else data, find, code)
    ensures LeavesRoom(2, minMatch, 0, lookahead) ==> ok
    ensures lookahead <= 205 ==> ok
  {
    hide E8E9.Encode; hide E8E9.Decode; hide Genuine; hide EatAll; hide Pow2; hide Rebuilds; hide AllBytes;
    hide LeavesRoom; hide Dictated; hide Advances; hide WritesPicks;
    SecondLevelLookahead(minMatch, lookahead);
    var input := Filter(data, doe8);
    var lz := new LZBuffer(input, 2, minMatch, lookahead, 0);
    ok := Drain(lz, find);
    if !ok {
      return false, [], [];
    }
    FinishedBytes(lz);
    assert [] + Dictated(input, find, 0, 0) == Dictated(input, find, 0, 0);
    FinishedPacks(lz, find);
    code := lz.out;
    out := RunLzpre(minMatch, doe8, size, code, input);
    E8E9.RoundTrip(data);
  }

  /** The post-processor, fed byte by byte. */
  method RunLzpre(minMatch: nat, doe8: bool, size: nat, code: seq<Byte>, ghost input: seq<Byte>)
    returns (out: seq<Byte>)
    requires EatAll(minMatch, Fresh([]), code) == Some(Fresh(input))
    requires |input| <= size && size > 0 && 1 <= minMatch <= 64
    ensures out == if doe8 then E8E9.Decode(input) else input
  {
    hide E8E9.Decode; hide EatAll;
    var m := new ByteAlignedLz.Machine(minMatch, doe8, size);
    assert m.m[..0] == [];
    var k := 0;
    assert code[0..] == code;
    while k < |code|
      invariant 0 <= k <= |code| && m.Valid() && fresh(m) && fresh(m.m)
      invariant m.On(code[k..], input) && m.base == [] && m.doe8 == doe8
    {
      assert code[k..] == [code[k]] + code[k + 1..];
      m.Feed(code[k], code[k + 1..], input);
      k := k + 1;
    }
    assert code[k..] == [];
    m.Finish(input);
    out := m.out;
  }

  // ---- The suffix-array search

  lemma SuffixPicksAreShort(input: seq<Byte>, minMatch: nat, lookahead: nat, find: (nat, nat) -> Pick)
    requires forall j: nat, l: nat :: j < |input| ==> SuffixPick(input, j, find(j, l), minMatch, lookahead, l)
    ensures forall j: nat, l: nat :: j < |input| ==> Genuine(input, j, find(j, l), minMatch, 25)
  {
    hide SuffixPick; hide Genuine;
    forall j: nat, l: nat | j < |input|
      ensures Genuine(input, j, find(j, l), minMatch, 25)
    {
      SuffixPickIsShort(input, j, find(j, l), minMatch, lookahead, l);
    }
  }

  /** Bit-packed LZ77 with matches from the suffix array: no look-ahead is too large. */
  method SuffixLevel1(data: seq<Byte>, doe8: bool, rb: nat, minMatch: nat, lookahead: nat, size: nat,
                      find: (nat, nat) -> Pick)
    returns (code: seq<Byte>, out: seq<Byte>)
    requires minMatch >= 4 && rb <= 8
    requires |data| + Pow2(rb) < Pow2(24 + rb) + 2 && |data| <= size && size > 0
    requires var input := if doe8 then E8E9.Encode(data) else data;
      forall j: nat, l: nat :: j < |input| ==> SuffixPick(input, j, find(j, l), minMatch, lookahead, l)
    ensures out == data && PacksPicks(rb, if doe8 then E8E9.Encode(data) else data, find, code)
  {
    hide E8E9.Encode; hide Genuine; hide SuffixPick; hide LeavesRoom; hide Pow2; hide PacksPicks;
    SuffixPicksAreShort(if doe8 then E8E9.Encode(data) else data, minMatch, lookahead, find);
    var ok;
    ok, code, out := Level1(data, doe8, rb, minMatch, 25, size, find);
  }

  /** Byte-aligned LZ77 with matches from the suffix array: no look-ahead is too large. */
  method SuffixLevel2(data: seq<Byte>, doe8: bool, minMatch: nat, lookahead: nat, size: nat, find: (nat, nat) -> Pick)
    returns (code: seq<Byte>, out: seq<Byte>)
    requires 1 <= minMatch <= 64
    requires |data| <= 0x1_0000_0000 && |data| <= size && size > 0
    requires var input := if doe8 then E8E9.Encode(data) else data;
      forall j: nat, l: nat :: j < |input| ==> SuffixPick(input, j, find(j, l), minMatch, lookahead, l)
    ensures out == data && WritesPicks(minMatch, if doe8 then E8E9.Encode(data) else data, find, code)
  {
    hide E8E9.Encode; hide Genuine; hide SuffixPick; hide LeavesRoom; hide WritesPicks;
    SuffixPicksAreShort(if doe8 then E8E9.Encode(data) else data, minMatch, lookahead, find);
    var ok;
    ok, code, out := Level2(data, doe8, minMatch, 25, size, find);
  }

  // ---- Block sizes

  /** The block sizes `compressBlock` asserts leave room for every offset, at every log size up to 11. */
  lemma BlockSizesFit(log: nat, n: nat)
    requires log <= 11 && n + 4096 <= Pow2(20 + log)
    ensures var rb := if log > 4 then log - 4 else 0; n + Pow2(rb) < Pow2(24 + rb) + 2
  {
    if log > 4 {
      PowGrows(log - 4, 7);
      assert Pow2(7) == 128;
    } else {
      PowGrows(20 + log, 24);
      assert Pow2(0) == 1;
    }
  }

  /**
   The reserve is needed: an offset within the log size itself, but in the last 2^rb-1
   values below 2^(24+rb), would be coded with 24 bits, whose mm field is 00, the mark of
   literals; and these are the only offsets up to 2^(24+rb) for which that happens.
   */
  lemma OverlongOffset(rb: nat, len: nat, off: nat)
    requires 1 <= off <= Pow2(24 + rb)
    ensures OffsetBits(rb, off) >= 0
    ensures MatchCode(rb, len, off)[..2] == [false, false] <==> Shifted(rb, off) >= Pow2(24 + rb)
  {
    hide Gamma; hide Shr; hide Field; hide Lg; hide Pow2;
    var x := Shifted(rb, off);
    if x < Pow2(24 + rb) {
      OffsetBitsRange(rb, off);
    } else {
      PowGrows(rb, 24 + rb);
      PowNext(24 + rb);
      LgIs(x, 25 + rb);
    }
    var lo := OffsetBits(rb, off);
    HeadBits(lo);
    var code := MatchCode(rb, len, off);
    assert code[..2] == Field((lo + 8) / 8, 2);
  }

  /** A match at offset 2^(24+rb), which the log size itself would allow, starts like a literal run. */
  lemma LastOffsetIsLost(rb: nat, len: nat)
    ensures OffsetBits(rb, Pow2(24 + rb)) >= 0
    ensures MatchCode(rb, len, Pow2(24 + rb))[..2] == [false, false]
  {
    hide MatchCode; hide OffsetBits;
    OverlongOffset(rb, len, Pow2(24 + rb));
  }

  lemma HeadBits(lo: nat)
    requires lo <= 24
    ensures Field((lo + 8) / 8, 2) == [false, false] <==> lo == 24
  {
    var h := (lo + 8) / 8;
    assert Field(h / 2, 1) == [h / 2 % 2 == 1] + Field(h / 2 / 2, 0);
    assert Field(h, 2)[0] == (h % 2 == 1) && Field(h, 2)[1] == (h / 2 % 2 == 1);
    assert [false, false][0] == false && [false, false][1] == false;
  }
}
